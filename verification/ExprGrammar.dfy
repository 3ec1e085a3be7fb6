/**
 The usual reading of the debugger's expressions, as a grammar of its own: sums of products of
 operands, both associating to the left.  It knows nothing of priorities or elements.
 */
module ExprGrammar {
  import opened Arithmetic
  import opened ExprSyntax

  datatype Atom = Number(n: uint32) | Group(s: Sum)

  /** An operand, dereferenced or negated; only the first one of a sum may be negated. */
  datatype Factor = Simple(a: Atom) | Fetched(a: Atom) | Negated(a: Atom)

  datatype Product = One(f: Factor) | Multiplied(p: Product, f: Factor) | Divided(p: Product, f: Factor)

  datatype Sum = Single(p: Product) | Added(s: Sum, p: Product) | Subtracted(s: Sum, p: Product)

  // ----- the text

  function AtomText(a: Atom): seq<Token> {
    match a
    case Number(n) => [Num(n)]
    case Group(s) => [LParen] + SumText(s) + [RParen]
  }

  function FactorText(f: Factor): seq<Token> {
    match f
    case Simple(a) => AtomText(a)
    case Fetched(a) => [Star] + AtomText(a)
    case Negated(a) => [Minus] + AtomText(a)
  }

  function ProductText(p: Product): seq<Token> {
    match p
    case One(f) => FactorText(f)
    case Multiplied(q, f) => ProductText(q) + [Star] + FactorText(f)
    case Divided(q, f) => ProductText(q) + [Slash] + FactorText(f)
  }

  function SumText(s: Sum): seq<Token> {
    match s
    case Single(p) => ProductText(p)
    case Added(t, p) => SumText(t) + [Plus] + ProductText(p)
    case Subtracted(t, p) => SumText(t) + [Minus] + ProductText(p)
  }

  // ----- where a negation may stand

  predicate AtomProper(a: Atom) {
    match a
    case Number(_) => true
    case Group(s) => SumProper(s)
  }

  predicate FactorProper(f: Factor, first: bool) {
    AtomProper(f.a) && (f.Negated? ==> first)
  }

  predicate ProductProper(p: Product, first: bool) {
    match p
    case One(f) => FactorProper(f, first)
    case Multiplied(q, f) => ProductProper(q, first) && FactorProper(f, false)
    case Divided(q, f) => ProductProper(q, first) && FactorProper(f, false)
  }

  predicate SumProper(s: Sum) {
    match s
    case Single(p) => ProductProper(p, true)
    case Added(t, p) => SumProper(t) && ProductProper(p, false)
    case Subtracted(t, p) => SumProper(t) && ProductProper(p, false)
  }

  // ----- the meaning, over the integers: only an address to be read is reduced modulo 2^32

  function AtomMeaning(a: Atom, load: uint32 -> uint32): int {
    match a
    case Number(n) => n
    case Group(s) => SumMeaning(s, load)
  }

  function FactorMeaning(f: Factor, load: uint32 -> uint32): int {
    match f
    case Simple(a) => AtomMeaning(a, load)
    case Fetched(a) => load(AtomMeaning(a, load) % 0x1_0000_0000)
    case Negated(a) => -AtomMeaning(a, load)
  }

  /** The division sign adds, nemu/src/monitor/expr.c:215-216. */
  function ProductMeaning(p: Product, load: uint32 -> uint32): int {
    match p
    case One(f) => FactorMeaning(f, load)
    case Multiplied(q, f) => ProductMeaning(q, load) * FactorMeaning(f, load)
    case Divided(q, f) => ProductMeaning(q, load) + FactorMeaning(f, load)
  }

  function SumMeaning(s: Sum, load: uint32 -> uint32): int {
    match s
    case Single(p) => ProductMeaning(p, load)
    case Added(t, p) => SumMeaning(t, load) + ProductMeaning(p, load)
    case Subtracted(t, p) => SumMeaning(t, load) - ProductMeaning(p, load)
  }

  // ----- the tree of a text

  function AtomTree(a: Atom): Tree {
    match a
    case Number(n) => Lit(n)
    case Group(s) => Paren(SumTree(s))
  }

  function FactorTree(f: Factor): Tree {
    match f
    case Simple(a) => AtomTree(a)
    case Fetched(a) => Deref(AtomTree(a))
    case Negated(a) => Neg(AtomTree(a))
  }

  function ProductTree(p: Product): Tree {
    match p
    case One(f) => FactorTree(f)
    case Multiplied(q, f) => Bin(Mul, ProductTree(q), FactorTree(f))
    case Divided(q, f) => Bin(Div, ProductTree(q), FactorTree(f))
  }

  function SumTree(s: Sum): Tree {
    match s
    case Single(p) => ProductTree(p)
    case Added(t, p) => Bin(Add, SumTree(t), ProductTree(p))
    case Subtracted(t, p) => Bin(Sub, SumTree(t), ProductTree(p))
  }

  // ----- printing that tree gives the text back

  lemma {:induction false} AtomPrinted(a: Atom, level: nat, start: bool)
    requires AtomProper(a) && level <= 4
    ensures Print(AtomTree(a), level, start) == PrintBare(AtomTree(a), start) == AtomText(a)
    decreases a
  {
    match a
    case Number(_) =>
    case Group(s) => SumPrinted(s);
  }

  lemma {:induction false} FactorPrinted(f: Factor, level: nat, start: bool)
    requires FactorProper(f, start) && level <= 3
    ensures Print(FactorTree(f), level, start) == FactorText(f)
    decreases f
  {
    AtomPrinted(f.a, level, start);
    AtomPrinted(f.a, 4, false);
  }

  lemma {:induction false} ProductPrinted(p: Product, level: nat, start: bool)
    requires ProductProper(p, start) && level <= 2
    ensures Print(ProductTree(p), level, start) == ProductText(p)
    decreases p
  {
    match p
    case One(f) => FactorPrinted(f, level, start);
    case Multiplied(q, f) => ProductPrinted(q, 2, start); FactorPrinted(f, 3, false);
    case Divided(q, f) => ProductPrinted(q, 2, start); FactorPrinted(f, 3, false);
  }

  /** Every text of the grammar is the printed form of its tree. */
  lemma {:induction false} SumPrinted(s: Sum)
    requires SumProper(s)
    ensures Print(SumTree(s), 1, true) == SumText(s)
    decreases s
  {
    match s
    case Single(p) => ProductPrinted(p, 1, true);
    case Added(t, p) => SumPrinted(t); ProductPrinted(p, 2, false);
    case Subtracted(t, p) => SumPrinted(t); ProductPrinted(p, 2, false);
  }

  // ----- the value of that tree is the meaning modulo 2^32

  lemma WrapShift(x: int, k: int)
    ensures Wrap32(x + k * WORD) == Wrap32(x)
  {
    var q, r := x / WORD, x % WORD;
    assert x + k * WORD == (q + k) * WORD + r;
    DivModUnique(x + k * WORD, WORD, q + k, r);
  }

  lemma WrapAdds(x: int, y: int)
    ensures Wrap32(Wrap32(x) + Wrap32(y)) == Wrap32(x + y)
    ensures Wrap32(Wrap32(x) - Wrap32(y)) == Wrap32(x - y)
    ensures Wrap32(-(Wrap32(x) as int)) == Wrap32(-x)
  {
    var q, q' := x / WORD, y / WORD;
    var r, r': int := Wrap32(x), Wrap32(y);
    assert x == q * WORD + r && y == q' * WORD + r';
    hide Wrap32;
    WrapShift(r + r', q + q');
    WrapShift(r - r', q - q');
    WrapShift(-r, -q);
  }

  lemma WrapMultiplies(x: int, y: int)
    ensures Wrap32(Wrap32(x) * Wrap32(y)) == Wrap32(x * y)
  {
    var q, q' := x / WORD, y / WORD;
    var r, r': int := Wrap32(x), Wrap32(y);
    assert x == q * WORD + r && y == q' * WORD + r';
    hide Wrap32;
    ProductOfSums(q, r, q', r', WORD);
    WrapShift(r * r', q * q' * WORD + q * r' + r * q');
  }

  lemma ProductOfSums(q: int, r: int, q': int, r': int, w: int)
    ensures (q * w + r) * (q' * w + r') == r * r' + (q * q' * w + q * r' + r * q') * w
  {
  }

  lemma {:induction false} AtomValue(a: Atom, load: uint32 -> uint32)
    ensures Value(AtomTree(a), load) == Wrap32(AtomMeaning(a, load))
    decreases a
  {
    match a
    case Number(_) =>
    case Group(s) => SumValue(s, load);
  }

  lemma {:induction false} FactorValue(f: Factor, load: uint32 -> uint32)
    ensures Value(FactorTree(f), load) == Wrap32(FactorMeaning(f, load))
    decreases f
  {
    AtomValue(f.a, load);
    WrapAdds(AtomMeaning(f.a, load), 0);
  }

  lemma {:induction false} ProductValue(p: Product, load: uint32 -> uint32)
    ensures Value(ProductTree(p), load) == Wrap32(ProductMeaning(p, load))
    decreases p
  {
    hide Wrap32;
    match p
    case One(f) => FactorValue(f, load);
    case Multiplied(q, f) =>
      ProductValue(q, load);
      FactorValue(f, load);
      WrapMultiplies(ProductMeaning(q, load), FactorMeaning(f, load));
    case Divided(q, f) =>
      ProductValue(q, load);
      FactorValue(f, load);
      WrapAdds(ProductMeaning(q, load), FactorMeaning(f, load));
  }

  lemma {:induction false} SumValue(s: Sum, load: uint32 -> uint32)
    ensures Value(SumTree(s), load) == Wrap32(SumMeaning(s, load))
    decreases s
  {
    hide Wrap32;
    match s
    case Single(p) => ProductValue(p, load);
    case Added(t, p) =>
      SumValue(t, load);
      ProductValue(p, load);
      WrapAdds(SumMeaning(t, load), ProductMeaning(p, load));
    case Subtracted(t, p) =>
      SumValue(t, load);
      ProductValue(p, load);
      WrapAdds(SumMeaning(t, load), ProductMeaning(p, load));
  }
}
