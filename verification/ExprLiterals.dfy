/**
 What the debugger's expressions evaluate to, spelled out on texts of literals: each operator,
 precedence, associativity, parentheses and the two unary operators.  nemu/src/monitor/expr.c.
 */
module ExprLiterals {
  import opened Arithmetic
  import opened ExprSyntax
  import opened ExprPipeline
  import opened ExprEval
  import opened ExprEnds
  import opened ExprGrammar
  import opened ExprMachine

  function Literal(n: uint32): (f: Factor) {
    Simple(Number(n))
  }

  /** The operands of the texts below. */
  lemma LiteralIs(n: uint32, load: uint32 -> uint32)
    ensures FactorText(Literal(n)) == [Num(n)] && FactorMeaning(Literal(n), load) == n
    ensures FactorProper(Literal(n), false) && FactorProper(Literal(n), true)
    ensures Opens(Literal(n), [Num(n)], n, load)
  {
    assert AtomText(Number(n)) == [Num(n)];
    OpensWith(Literal(n), load);
  }

  lemma FetchedIs(n: uint32, load: uint32 -> uint32)
    ensures var f := Fetched(Number(n));
            && FactorText(f) == [Star, Num(n)] && FactorMeaning(f, load) == load(n)
            && FactorProper(f, false) && Opens(f, [Star, Num(n)], load(n), load)
  {
    assert AtomText(Number(n)) == [Num(n)] && AtomMeaning(Number(n), load) == n && AtomProper(Number(n));
    OpensWith(Fetched(Number(n)), load);
  }

  lemma NegatedIs(n: uint32, load: uint32 -> uint32)
    ensures Opens(Negated(Number(n)), [Minus, Num(n)], -(n as int), load)
  {
    assert AtomText(Number(n)) == [Num(n)] && AtomMeaning(Number(n), load) == n && AtomProper(Number(n));
    OpensWith(Negated(Number(n)), load);
  }

  /** A sum in parentheses as an operand. */
  lemma GroupIs(s: Sum, load: uint32 -> uint32)
    requires SumProper(s)
    ensures var f := Simple(Group(s));
            && FactorText(f) == [LParen] + SumText(s) + [RParen] && FactorMeaning(f, load) == SumMeaning(s, load)
            && FactorProper(f, false)
  {
    assert AtomText(Group(s)) == [LParen] + SumText(s) + [RParen] && AtomProper(Group(s));
    assert AtomMeaning(Group(s), load) == SumMeaning(s, load);
  }

  /** The operand may begin a text, and alone has this text and meaning. */
  predicate Opens(f: Factor, text: seq<Token>, meaning: int, load: uint32 -> uint32) {
    && ProductText(One(f)) == text && SumText(Single(One(f))) == text
    && ProductMeaning(One(f), load) == meaning && SumMeaning(Single(One(f)), load) == meaning
    && ProductProper(One(f), true) && SumProper(Single(One(f))) && (!f.Negated? ==> ProductProper(One(f), false))
  }

  lemma OpensWith(f: Factor, load: uint32 -> uint32)
    requires FactorProper(f, true)
    ensures Opens(f, FactorText(f), FactorMeaning(f, load), load)
  {
    assert ProductText(One(f)) == FactorText(f) && ProductMeaning(One(f), load) == FactorMeaning(f, load);
    assert ProductProper(One(f), true) && (!f.Negated? ==> ProductProper(One(f), false));
  }

  /** What a text of the grammar evaluates to, with its text and meaning given. */
  lemma Reads(s: Sum, text: seq<Token>, meaning: int, load: uint32 -> uint32)
    requires SumProper(s) && SumText(s) == text && SumMeaning(s, load) == meaning && |text| <= MAX_TOKENS
    ensures Outcome(text, load) == Some(Wrap32(meaning))
  {
    hide *;
    GrammarOutcome(s, load);
  }

  /** One operand: as it is, dereferenced, or negated. */
  lemma OneOperand(x: uint32, load: uint32 -> uint32)
    ensures Outcome([Num(x)], load) == Some(x)
    ensures Outcome([Star, Num(x)], load) == Some(load(x))
    ensures Outcome([Minus, Num(x)], load) == Some(Wrap32(-(x as int)))
  {
    hide Outcome, FactorText, FactorMeaning, ProductText, ProductMeaning, SumText, SumMeaning;
    LiteralIs(x, load);
    FetchedIs(x, load);
    NegatedIs(x, load);
    Reads(Single(One(Literal(x))), [Num(x)], x, load);
    Reads(Single(One(Fetched(Number(x)))), [Star, Num(x)], load(x), load);
    Reads(Single(One(Negated(Number(x)))), [Minus, Num(x)], -(x as int), load);
  }

  /** Two operands. */
  lemma TwoOperands(x: uint32, y: uint32, load: uint32 -> uint32)
    ensures Outcome([Num(x), Plus, Num(y)], load) == Some(Wrap32(x + y))
    ensures Outcome([Num(x), Minus, Num(y)], load) == Some(Wrap32(x - y))
    ensures Outcome([Num(x), Star, Num(y)], load) == Some(Wrap32(x * y))
  {
    hide Outcome, FactorText, FactorMeaning, FactorProper, Wrap32;
    LiteralIs(x, load);
    LiteralIs(y, load);
    var p, q := One(Literal(x)), One(Literal(y));
    Reads(Added(Single(p), q), [Num(x), Plus, Num(y)], x + y, load);
    Reads(Subtracted(Single(p), q), [Num(x), Minus, Num(y)], x - y, load);
    Reads(Single(Multiplied(p, Literal(y))), [Num(x), Star, Num(y)], x * y, load);
  }

  /** Products bind tighter than sums, on either side. */
  lemma ProductsBindTighter(x: uint32, y: uint32, z: uint32, load: uint32 -> uint32)
    ensures Outcome([Num(x), Plus, Num(y), Star, Num(z)], load) == Some(Wrap32(x + y * z))
    ensures Outcome([Num(x), Star, Num(y), Plus, Num(z)], load) == Some(Wrap32(x * y + z))
    ensures Outcome([Num(x), Minus, Num(y), Star, Num(z)], load) == Some(Wrap32(x - y * z))
  {
    hide Outcome, FactorText, FactorMeaning, FactorProper, Wrap32;
    LiteralIs(x, load);
    LiteralIs(y, load);
    LiteralIs(z, load);
    var p, q, r := One(Literal(x)), One(Literal(y)), One(Literal(z));
    Reads(Added(Single(p), Multiplied(q, Literal(z))), [Num(x), Plus, Num(y), Star, Num(z)], x + y * z, load);
    var s := Single(Multiplied(p, Literal(y)));
    assert SumText(s) == [Num(x), Star, Num(y)] && SumMeaning(s, load) == x * y && SumProper(s);
    Reads(Added(s, r), [Num(x), Star, Num(y), Plus, Num(z)], x * y + z, load);
    Reads(Subtracted(Single(p), Multiplied(q, Literal(z))), [Num(x), Minus, Num(y), Star, Num(z)], x - y * z, load);
  }

  /** Sums associate to the left. */
  lemma SumsAssociateLeft(x: uint32, y: uint32, z: uint32, load: uint32 -> uint32)
    ensures Outcome([Num(x), Minus, Num(y), Minus, Num(z)], load) == Some(Wrap32(x - y - z))
    ensures Outcome([Num(x), Minus, Num(y), Plus, Num(z)], load) == Some(Wrap32(x - y + z))
  {
    hide Outcome, FactorText, FactorMeaning, FactorProper, Wrap32;
    LiteralIs(x, load);
    LiteralIs(y, load);
    LiteralIs(z, load);
    var s, r := Subtracted(Single(One(Literal(x))), One(Literal(y))), One(Literal(z));
    assert SumText(s) == [Num(x), Minus, Num(y)] && SumMeaning(s, load) == x - y && SumProper(s);
    Reads(Subtracted(s, r), [Num(x), Minus, Num(y), Minus, Num(z)], x - y - z, load);
    Reads(Added(s, r), [Num(x), Minus, Num(y), Plus, Num(z)], x - y + z, load);
  }

  /** Unary operators bind tightest. */
  lemma UnaryBindsTightest(x: uint32, y: uint32, load: uint32 -> uint32)
    ensures Outcome([Minus, Num(x), Star, Num(y)], load) == Some(Wrap32(-(x as int) * y))
    ensures Outcome([Minus, Num(x), Plus, Num(y)], load) == Some(Wrap32(-(x as int) + y))
    ensures Outcome([Star, Num(x), Plus, Num(y)], load) == Some(Wrap32(load(x) + y))
    ensures Outcome([Num(x), Star, Star, Num(y)], load) == Some(Wrap32(x * load(y)))
  {
    hide Outcome, FactorText, FactorMeaning, FactorProper, Wrap32;
    LiteralIs(x, load);
    LiteralIs(y, load);
    FetchedIs(x, load);
    FetchedIs(y, load);
    NegatedIs(x, load);
    var q, m, f := One(Literal(y)), One(Negated(Number(x))), One(Fetched(Number(x)));
    Reads(Single(Multiplied(m, Literal(y))), [Minus, Num(x), Star, Num(y)], -(x as int) * y, load);
    Reads(Added(Single(m), q), [Minus, Num(x), Plus, Num(y)], -(x as int) + y, load);
    Reads(Added(Single(f), q), [Star, Num(x), Plus, Num(y)], load(x) + y, load);
    Reads(Single(Multiplied(One(Literal(x)), Fetched(Number(y)))), [Num(x), Star, Star, Num(y)], x * load(y), load);
  }

  /** Parentheses come first, and the text in them may begin with a negation. */
  lemma ParenthesesComeFirst(x: uint32, y: uint32, z: uint32, load: uint32 -> uint32)
    ensures Outcome([Num(x), Star, LParen, Num(y), Plus, Num(z), RParen], load) == Some(Wrap32(x * (y + z)))
    ensures Outcome([Num(x), Minus, LParen, Num(y), Minus, Num(z), RParen], load) == Some(Wrap32(x - (y - z)))
    ensures Outcome([Num(x), Star, LParen, Minus, Num(y), RParen], load) == Some(Wrap32(x * -(y as int)))
  {
    hide Outcome, FactorText, FactorMeaning, FactorProper, Wrap32;
    LiteralIs(x, load);
    LiteralIs(y, load);
    LiteralIs(z, load);
    NegatedIs(y, load);
    var p, q, r := One(Literal(x)), One(Literal(y)), One(Literal(z));
    var a, b, c := Added(Single(q), r), Subtracted(Single(q), r), Single(One(Negated(Number(y))));
    GroupIs(a, load);
    GroupIs(b, load);
    GroupIs(c, load);
    var d := One(Simple(Group(b)));
    assert ProductText(d) == [LParen, Num(y), Minus, Num(z), RParen];
    Reads(Single(Multiplied(p, Simple(Group(a)))), [Num(x), Star, LParen, Num(y), Plus, Num(z), RParen], x * (y + z), load);
    Reads(Subtracted(Single(p), d), [Num(x), Minus, LParen, Num(y), Minus, Num(z), RParen], x - (y - z), load);
    Reads(Single(Multiplied(p, Simple(Group(c)))), [Num(x), Star, LParen, Minus, Num(y), RParen], x * -(y as int), load);
  }

  /** Two unary operators that end up side by side at the same priority are applied from the right. */
  lemma StackedUnaries(x: uint32, load: uint32 -> uint32)
    ensures Outcome([LParen, Minus, RParen, LParen, Star, Num(x), RParen], load) == Some(Wrap32(-(load(x) as int)))
    ensures Outcome([LParen, Star, RParen, LParen, Minus, Num(x), RParen], load) == Some(load(Wrap32(-(x as int))))
  {
    StackedPrepared(Minus, 7, Star, 8, x);
    StackedPrepared(Star, 8, Minus, 7, x);
    hide Prepared;
    StackedEval(7, 8, x, load);
    StackedEval(8, 7, x, load);
  }

  lemma StackedPrepared(t: Token, n: nat, t': Token, n': nat, x: uint32)
    requires (t == Minus && n == 7) || (t == Star && n == 8)
    requires (t' == Minus && n' == 7) || (t' == Star && n' == 8)
    ensures Prepared([LParen, t, RParen, LParen, t', Num(x), RParen]) == [Element(2, n, 6), Element(2, n', 6), Element(1, x, 0)]
  {
    var text := [LParen, t, RParen, LParen, t', Num(x), RParen];
    hide Process, Read, Classified, Prioritized, Bare;
    PassesCombine(Opening, 0, text);
    ProcessSingle(Opening, 0, LParen, text[1..]);
    assert text == [LParen] + text[1..] && text[1..] == [t] + text[2..] && text[2..] == [RParen] + text[3..];
    assert text[3..] == [LParen] + text[4..] && text[4..] == [t'] + text[5..] && text[5..] == [Num(x)] + text[6..];
    assert text[6..] == [RParen] + [];
    ProcessSingle(Opening, 1, t, text[2..]);
    ProcessSingle(Other, 1, RParen, text[3..]);
    ProcessSingle(Other, 0, LParen, text[4..]);
    ProcessSingle(Opening, 1, t', text[5..]);
    ProcessSingle(Other, 1, Num(x), text[6..]);
    ProcessSingle(Other, 1, RParen, []);
    ProcessNothing(Other, 0);
  }

  lemma ProcessNothing(before: Before, depth: int)
    ensures Process(before, depth, []) == []
  {
  }

  lemma StackedEval(n: nat, n': nat, x: uint32, load: uint32 -> uint32)
    requires (n == 7 || n == 8) && (n' == 7 || n' == 8)
    ensures var es := [Element(2, n, 6), Element(2, n', 6), Element(1, x, 0)];
            Eval(4, es, 0, 2, load) == Some(ApplyUnary(n, ApplyUnary(n', x, load), load))
  {
    var es := [Element(2, n, 6), Element(2, n', 6), Element(1, x, 0)];
    SplitIs(es, 0, 2, 100, 0, 1);
    assert Eval(3, es, 2, 2, load) == Some(x);
    var v := ApplyUnary(n', x, load);
    hide ApplyUnary, Eval, Split;
    assert ApplyChain(es, -1, ApplyUnary(n, v, load), load) == ApplyUnary(n, v, load);
    assert ApplyChain(es, 0, v, load) == ApplyUnary(n, v, load);
    EvalAtChain(4, es, 2, x, load);
  }

  lemma EvalAtChain(fuel: nat, es: seq<Element>, e: nat, x: uint32, load: uint32 -> uint32)
    requires fuel > 0 && 1 < e < |es| && Split(es, 0, e, 100, 0) == 1
    requires IsUnary(es[1]) && !StandsAlone(es, 1) && Eval(fuel - 1, es, 2, e, load) == Some(x)
    ensures Eval(fuel, es, 0, e, load) == Some(ApplyChain(es, 0, ApplyUnary(es[1].num, x, load), load))
  {
    hide Split, ApplyUnary, ApplyChain, StandsAlone;
  }

  // ----- texts that the grammar does not have

  /** A text without parentheses is read token by token. */
  lemma FlatStep(before: Before, t: Token, rest: seq<Token>)
    requires t != LParen && t != RParen
    ensures var e := Reread(before, ElementOf(t));
            Process(before, 0, [t] + rest) == [e] + Process(BeforeNext(e), 0, rest)
  {
    hide Process;
    ProcessSingle(before, 0, t, rest);
  }

  lemma PreparedIsProcess(tokens: seq<Token>)
    ensures Prepared(tokens) == Process(Opening, 0, tokens)
  {
    hide Process, Read, Classified, Prioritized, Bare;
    PassesCombine(Opening, 0, tokens);
  }

  lemma FlatOne(before: Before, a: Token)
    requires a != LParen && a != RParen
    ensures Process(before, 0, [a]) == [Reread(before, ElementOf(a))]
  {
    hide Process;
    assert [a] == [a] + [];
    FlatStep(before, a, []);
    ProcessNothing(BeforeNext(Reread(before, ElementOf(a))), 0);
  }

  lemma FlatTwo(before: Before, a: Token, b: Token)
    requires a != LParen && a != RParen && b != LParen && b != RParen
    ensures var e := Reread(before, ElementOf(a));
            Process(before, 0, [a, b]) == [e, Reread(BeforeNext(e), ElementOf(b))]
  {
    hide Process;
    assert [a, b] == [a] + [b];
    FlatStep(before, a, [b]);
    FlatOne(BeforeNext(Reread(before, ElementOf(a))), b);
  }

  lemma FlatThree(before: Before, a: Token, b: Token, c: Token)
    requires a != LParen && a != RParen && b != LParen && b != RParen && c != LParen && c != RParen
    ensures var e := Reread(before, ElementOf(a));
            var f := Reread(BeforeNext(e), ElementOf(b));
            Process(before, 0, [a, b, c]) == [e, f, Reread(BeforeNext(f), ElementOf(c))]
  {
    hide Process;
    assert [a, b, c] == [a] + [b, c];
    FlatStep(before, a, [b, c]);
    FlatTwo(BeforeNext(Reread(before, ElementOf(a))), b, c);
  }

  /** No text at all, an operator alone, and two operands without an operator. */
  lemma NothingToApply(x: uint32, y: uint32, load: uint32 -> uint32)
    ensures Outcome([], load) == Some(0xffff_ffff)
    ensures Outcome([Plus], load) == Some(1) && Outcome([Star], load) == Some(8)
    ensures Outcome([Num(x), Num(y)], load) == Some(0xffff_ffff)
  {
    PreparedIsProcess([]);
    PreparedIsProcess([Plus]);
    PreparedIsProcess([Star]);
    PreparedIsProcess([Num(x), Num(y)]);
    hide Prepared, Process;
    ProcessNothing(Opening, 0);
    FlatOne(Opening, Plus);
    FlatOne(Opening, Star);
    FlatTwo(Opening, Num(x), Num(y));
    var es := [Element(1, x, 0), Element(1, y, 0)];
    SplitStays(es, 0, 1, 100, 0);
    OperandIsBad(es, load);
  }

  /** A missing right operand counts as -1. */
  lemma MissingRight(x: uint32, load: uint32 -> uint32)
    ensures Outcome([Num(x), Minus], load) == Some(Wrap32(x + 1))
  {
    PreparedIsProcess([Num(x), Minus]);
    hide Prepared, Process;
    FlatTwo(Opening, Num(x), Minus);
    var es := [Element(1, x, 0), Element(2, 2, 1)];
    SplitIs(es, 0, 1, 100, 0, 1);
    assert Eval(2, es, 0, 0, load) == Some(x) && Eval(2, es, 2, 1, load) == Some(0xffff_ffff);
    EvalAtBinary(3, es, 0, 1, 1, x, 0xffff_ffff, load);
    assert x + 1 == x - 0xffff_ffff + WORD;
  }

  /** A second '-' or '*' in front is read as binary, and its left operand is the first one's number. */
  lemma TwoInFront(x: uint32, load: uint32 -> uint32)
    ensures Outcome([Minus, Minus, Num(x)], load) == Some(Wrap32(7 - x))
    ensures Outcome([Star, Star, Num(x)], load) == Some(Wrap32(8 * x))
  {
    PreparedIsProcess([Minus, Minus, Num(x)]);
    PreparedIsProcess([Star, Star, Num(x)]);
    hide Prepared, Process, Eval;
    FlatThree(Opening, Minus, Minus, Num(x));
    FlatThree(Opening, Star, Star, Num(x));
    MisreadEval(7, 2, 1, x, load);
    MisreadEval(8, 3, 2, x, load);
  }

  lemma MisreadEval(n: nat, n': nat, priority: int, x: uint32, load: uint32 -> uint32)
    requires (n == 7 || n == 8) && ((n' == 2 && priority == 1) || (n' == 3 && priority == 2))
    ensures var es := [Element(2, n, 3), Element(2, n', priority), Element(1, x, 0)];
            Eval(4, es, 0, 2, load) == Some(Wrap32(if n' == 2 then n - x else n * x))
  {
    var es := [Element(2, n, 3), Element(2, n', priority), Element(1, x, 0)];
    SplitIs(es, 0, 2, 100, 0, 1);
    assert Eval(3, es, 0, 0, load) == Some(n) && Eval(3, es, 2, 2, load) == Some(x);
    hide Eval, Split, Wrap32;
    EvalAtBinary(4, es, 0, 2, 1, n, x, load);
  }
}
