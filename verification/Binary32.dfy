/**
 The binary32 format of IEEE 754-2008 (section 3.4) and what "correctly rounded" means
 (section 4.3.1, roundTiesToEven).  Everything is stated over integers: a finite value is
 an integer multiple of 2^-149.
 */
module Binary32 {
  import opened Arithmetic
  import opened Rounding

  const INFINITY: nat := 0x7f80_0000

  function Sign(v: uint32): nat {
    v / 0x8000_0000
  }

  function Exponent(v: uint32): nat {
    v / 0x80_0000 % 0x100
  }

  function Fraction(v: uint32): nat {
    v % 0x80_0000
  }

  function Magnitude(v: uint32): nat {
    v % 0x8000_0000
  }

  function Encode(sign: nat, exponent: nat, fraction: nat): (v: uint32)
    requires sign <= 1 && exponent < 0x100 && fraction < 0x80_0000
  {
    sign * 0x8000_0000 + exponent * 0x80_0000 + fraction
  }

  lemma EncodeFields(sign: nat, exponent: nat, fraction: nat)
    requires sign <= 1 && exponent < 0x100 && fraction < 0x80_0000
    ensures var v := Encode(sign, exponent, fraction);
            && Sign(v) == sign && Exponent(v) == exponent && Fraction(v) == fraction
            && Magnitude(v) == exponent * 0x80_0000 + fraction
  {
    var v: int := Encode(sign, exponent, fraction);
    DivModUnique(v, 0x8000_0000, sign, exponent * 0x80_0000 + fraction);
    DivModUnique(v, 0x80_0000, sign * 0x100 + exponent, fraction);
    DivModUnique(sign * 0x100 + exponent, 0x100, sign, exponent);
  }

  predicate IsFinite(v: uint32) {
    Exponent(v) != 0xff
  }

  predicate IsInfinite(v: uint32) {
    Magnitude(v) == INFINITY
  }

  predicate IsNaN(v: uint32) {
    Magnitude(v) > INFINITY
  }

  predicate IsZero(v: uint32) {
    Magnitude(v) == 0
  }

  /** The significand, with the hidden bit of a normal number. */
  function Significand(v: uint32): nat {
    Fraction(v) + (if Exponent(v) != 0 then 0x80_0000 else 0)
  }

  /** The exponent that scales the significand: a subnormal is scaled like exponent 1. */
  function ScaleExponent(v: uint32): (e: nat)
    ensures e >= 1
  {
    if Exponent(v) == 0 then 1 else Exponent(v)
  }

  /** |v| in units of 2^-149. */
  function Units(v: uint32): nat {
    Significand(v) * Pow2(ScaleExponent(v) - 1)
  }

  /** The signed value in units of 2^-149. */
  function Value(v: uint32): int {
    var units: int := Units(v);
    if Sign(v) == 1 then -units else units
  }

  /**
   The value of the 31-bit magnitude m: consecutive up to 2^24, and from there every 2^23
   encodings span a binade with twice the spacing (see UnitsOfFields for the usual form).
   It is also used on magnitudes from INFINITY up, where it continues the binades:
   UnitsOf(INFINITY) is 2^128, as if infinity were the next normal number.
   */
  function UnitsOf(m: nat): nat {
    if m < 0x100_0000 then m else 2 * UnitsOf(m - 0x80_0000)
  }

  /** The value of a magnitude is its significand scaled by its exponent (section 3.4). */
  lemma {:induction false} UnitsOfFields(e: nat, f: nat)
    requires f < 0x80_0000
    ensures UnitsOf(e * 0x80_0000 + f) == if e == 0 then f else (0x80_0000 + f) * Pow2(e - 1)
  {
    if e <= 1 {
      assert Pow2(0) == 1;
    } else {
      UnitsOfFields(e - 1, f);
      var s, p := 0x80_0000 + f, Pow2(e - 2);
      assert s * (2 * p) == 2 * (s * p);
    }
  }

  lemma UnitsOfMagnitude(v: uint32)
    ensures UnitsOf(Magnitude(v)) == Units(v)
  {
    assert Pow2(0) == 1;
    assert Magnitude(v) == Exponent(v) * 0x80_0000 + Fraction(v);
    UnitsOfFields(Exponent(v), Fraction(v));
  }

  /**
   m is the magnitude of the exact value num/den rounded with roundTiesToEven: infinity when
   |num/den| >= 2^127 * (2 - 2^-24), and otherwise the nearest finite number, the one with
   the even significand if two are equally near.
   */
  ghost predicate CorrectlyRounded(num: nat, den: nat, m: nat)
    requires den > 0
  {
    if 2 * num >= OverflowTwice() * den then
      m == INFINITY
    else
      && m < INFINITY
      && forall g: nat :: g < INFINITY ==> NoNearer(num, den, m, g)
  }

  /** g is not nearer to num/den than m, nor equally near while m is odd. */
  ghost predicate NoNearer(num: nat, den: nat, m: nat, g: nat)
  {
    var dm, dg := Abs(UnitsOf(m) * den - num), Abs(UnitsOf(g) * den - num);
    dm <= dg && (dm == dg && g != m ==> m % 2 == 0)
  }

  // ----- the order of the encodings

  lemma {:induction false} UnitsOfNext(m: nat)
    ensures UnitsOf(m) < UnitsOf(m + 1)
  {
    if m >= 0x100_0000 {
      UnitsOfNext(m - 0x80_0000);
    }
  }

  lemma {:induction false} UnitsOfMonotone(m: nat, n: nat)
    requires m < n
    ensures UnitsOf(m) < UnitsOf(n)
    decreases n
  {
    UnitsOfNext(n - 1);
    if m < n - 1 {
      UnitsOfMonotone(m, n - 1);
    }
  }

  /** Twice the overflow bound 2^127 * (2 - 2^-24), in units of 2^-149. */
  function OverflowTwice(): (t: nat)
    ensures t == UnitsOf(INFINITY - 1) + UnitsOf(INFINITY)
  {
    TopBinade(254);
    0x1ff_ffff * Pow2(253)
  }

  lemma TopBinade(e: nat)
    requires e >= 1
    ensures UnitsOf(e * 0x80_0000 + 0x7f_ffff) + UnitsOf(e * 0x80_0000 + 0x80_0000) == 0x1ff_ffff * Pow2(e - 1)
  {
    UnitsOfFields(e, 0x7f_ffff);
    UnitsOfFields(e + 1, 0);
  }

  // ----- Pack computes the correctly rounded magnitude

  /** num/den lies in the rounding interval of p: between the midpoints to its neighbours. */
  ghost predicate InRoundingInterval(num: nat, den: nat, p: nat) {
    && (p > 0 ==>
          var low := (UnitsOf(p - 1) + UnitsOf(p)) * den;
          2 * num >= low && (2 * num == low ==> p % 2 == 0))
    && (var high := (UnitsOf(p) + UnitsOf(p + 1)) * den;
        2 * num <= high && (2 * num == high ==> p % 2 == 0))
  }

  lemma {:induction false} PackInRoundingInterval(num: nat, den: nat)
    requires den > 0
    ensures InRoundingInterval(num, den, Pack(num, den))
    decreases if num < 0x100_0000 * den then 0 else num - 0x100_0000 * den + 1
  {
    hide RoundNearestEven, InRoundingInterval;
    var p := Pack(num, den);
    if num < 0x100_0000 * den {
      RoundNearestEvenMeaning(num, den);
      FirstBinade(num, den, p);
    } else {
      var p' := Pack(num, 2 * den);
      PackInRoundingInterval(num, 2 * den);
      PackAtLeast(num, 2 * den);
      NextBinade(num, den, p');
    }
  }

  lemma FirstBinade(num: nat, den: nat, p: nat)
    requires den > 0 && num < 0x100_0000 * den
    requires 2 * (p * den) <= 2 * num + den && 2 * num <= 2 * (p * den) + den
    requires 2 * (p * den) == 2 * num + den || 2 * num == 2 * (p * den) + den ==> p % 2 == 0
    ensures InRoundingInterval(num, den, p)
  {
    if p > 0x100_0000 {
      MulMonotone(0x100_0001, p, den);
    }
    assert UnitsOf(p) == p;
    if p > 0 {
      assert UnitsOf(p - 1) == p - 1;
      assert (p - 1 + p) * den == 2 * (p * den) - den;
    }
    if p < 0x100_0000 {
      assert UnitsOf(p + 1) == p + 1;
      assert (p + p + 1) * den == 2 * (p * den) + den;
    } else {
      assert UnitsOf(p + 1) == p + 2;
      assert (p + p + 2) * den == 2 * (p * den) + 2 * den;
    }
  }

  lemma NextBinade(num: nat, den: nat, p: nat)
    requires den > 0 && p >= 0x80_0000 && num >= 0x100_0000 * den
    requires InRoundingInterval(num, 2 * den, p)
    ensures InRoundingInterval(num, den, 0x80_0000 + p)
  {
    DoubleMul(UnitsOf(p) + UnitsOf(p + 1), den);
    if p > 0x80_0000 {
      DoubleMul(UnitsOf(p - 1) + UnitsOf(p), den);
    } else {
      assert UnitsOf(0xff_ffff) + UnitsOf(0x100_0000) == 0x1ff_ffff;
    }
  }

  lemma DoubleMul(x: nat, den: nat)
    ensures (2 * x) * den == x * (2 * den)
  {
  }

  lemma NearestInInterval(num: nat, den: nat, p: nat, g: nat)
    requires den > 0
    requires InRoundingInterval(num, den, p)
    ensures NoNearer(num, den, p, g)
  {
    if g < p {
      UnitsOfMonotone(g, p);
      if g < p - 1 {
        UnitsOfMonotone(g, p - 1);
      }
      NoNearerBelow(num, den, UnitsOf(p), UnitsOf(p - 1), UnitsOf(g));
    } else if g > p {
      UnitsOfMonotone(p, g);
      if g > p + 1 {
        UnitsOfMonotone(p + 1, g);
      }
      NoNearerAbove(num, den, UnitsOf(p), UnitsOf(p + 1), UnitsOf(g));
    }
  }

  lemma NoNearerBelow(num: nat, den: nat, up: nat, below: nat, ug: nat)
    requires den > 0 && ug <= below && ug < up
    requires 2 * num >= (below + up) * den
    ensures Abs(up * den - num) <= Abs(ug * den - num)
    ensures Abs(up * den - num) == Abs(ug * den - num) ==> 2 * num == (below + up) * den
  {
    MulMonotone(ug, below, den);
    MulStrict(ug, up, den);
    assert (below + up) * den == below * den + up * den;
  }

  lemma NoNearerAbove(num: nat, den: nat, up: nat, above: nat, ug: nat)
    requires den > 0 && above <= ug && up < ug
    requires 2 * num <= (up + above) * den
    ensures Abs(up * den - num) <= Abs(ug * den - num)
    ensures Abs(up * den - num) == Abs(ug * den - num) ==> 2 * num == (up + above) * den
  {
    MulMonotone(above, ug, den);
    MulStrict(up, ug, den);
    assert (up + above) * den == up * den + above * den;
  }

  /** Pack reaches the encoding of infinity exactly from the overflow bound on. */
  lemma PackOverflow(num: nat, den: nat)
    requires den > 0
    ensures Pack(num, den) >= INFINITY <==> 2 * num >= OverflowTwice() * den
  {
    hide Pack, OverflowTwice, UnitsOf;
    var p := Pack(num, den);
    PackInRoundingInterval(num, den);
    var bound := OverflowTwice();
    if p > INFINITY {
      UnitsOfMonotone(INFINITY, p);
      UnitsOfMonotone(INFINITY - 1, p - 1);
      MulMonotone(bound, UnitsOf(p - 1) + UnitsOf(p), den);
    } else if p < INFINITY - 1 {
      UnitsOfMonotone(p, INFINITY - 1);
      UnitsOfMonotone(p + 1, INFINITY);
      MulStrict(UnitsOf(p) + UnitsOf(p + 1), bound, den);
    }
  }

  /** The closed form meets the declarative definition, for every exact value. */
  lemma PackCorrectlyRounded(num: nat, den: nat)
    requires den > 0
    ensures CorrectlyRounded(num, den, Min(Pack(num, den), INFINITY))
  {
    var p := Pack(num, den);
    PackOverflow(num, den);
    if p < INFINITY {
      PackInRoundingInterval(num, den);
      forall g: nat | g < INFINITY
        ensures NoNearer(num, den, p, g)
      {
        NearestInInterval(num, den, p, g);
      }
    }
  }

  /** There is one correctly rounded magnitude. */
  lemma CorrectlyRoundedUnique(num: nat, den: nat, m: nat, n: nat)
    requires den > 0
    requires CorrectlyRounded(num, den, m)
    requires CorrectlyRounded(num, den, n)
    ensures m == n
  {
    if m < n {
      OneNearest(num, den, m, n);
    } else if n < m {
      OneNearest(num, den, n, m);
    }
  }

  lemma OneNearest(num: nat, den: nat, lo: nat, hi: nat)
    requires den > 0 && lo < hi < INFINITY
    ensures !(NoNearer(num, den, lo, hi) && NoNearer(num, den, hi, lo) && NoNearer(num, den, lo, lo + 1))
  {
    hide UnitsOf;
    var mid := lo + 1;
    UnitsOfMonotone(lo, mid);
    MulStrict(UnitsOf(lo), UnitsOf(mid), den);
    if mid < hi {
      UnitsOfMonotone(mid, hi);
      MulStrict(UnitsOf(mid), UnitsOf(hi), den);
      Between(UnitsOf(lo) * den, UnitsOf(mid) * den, UnitsOf(hi) * den, num);
    }
  }

  /** A point between two equally near ones is nearer. */
  lemma Between(a: nat, b: nat, c: nat, x: nat)
    requires a < b < c
    ensures Abs(a - x) == Abs(c - x) ==> Abs(b - x) < Abs(a - x)
  {
  }

  /** A value that binary32 can represent is its own rounding. */
  lemma RepresentableIsExact(num: nat, den: nat, m: nat)
    requires den > 0 && m < INFINITY
    requires num == UnitsOf(m) * den
    ensures CorrectlyRounded(num, den, m)
  {
    hide OverflowTwice, UnitsOf;
    var bound := OverflowTwice();
    if m < INFINITY - 1 {
      UnitsOfMonotone(m, INFINITY - 1);
    }
    UnitsOfNext(INFINITY - 1);
    MulStrict(2 * UnitsOf(m), bound, den);
    assert 2 * UnitsOf(m) * den == 2 * num;
    forall g: nat | g < INFINITY
      ensures NoNearer(num, den, m, g)
    {
      if g < m {
        UnitsOfMonotone(g, m);
        MulStrict(UnitsOf(g), UnitsOf(m), den);
      } else if g > m {
        UnitsOfMonotone(m, g);
        MulStrict(UnitsOf(m), UnitsOf(g), den);
      }
    }
  }
}
