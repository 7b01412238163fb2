/** The double comparisons said of the sign, exponent and fraction of a pattern, as IEEE 754-2008
    section 3.4 lays them out. */
module DoubleFields {
  import opened Powers
  import opened JavaInts
  import opened Rules
  import opened Vals
  import opened Composition
  import opened Ieee
  import opened OracleSoundness

  type Exponent = e: int | 0 <= e < 0x800
  type Fraction = f: int | 0 <= f < 0x10_0000_0000_0000

  datatype Fields = Fields(negative: bool, e: Exponent, f: Fraction)

  /** One bit of sign, eleven of exponent, fifty-two of fraction. */
  function Pattern(x: Fields): Bits {
    (if x.negative then 0x8000_0000_0000_0000 else 0) + x.e * 0x10_0000_0000_0000 + x.f
  }

  function FieldsOf(b: Bits): Fields {
    Fields(b >= 0x8000_0000_0000_0000, b % 0x8000_0000_0000_0000 / 0x10_0000_0000_0000, b % 0x10_0000_0000_0000)
  }

  /** Every pattern is made of its fields, in one way. */
  lemma FieldsOfPattern(x: Fields, b: Bits)
    ensures FieldsOf(Pattern(x)) == x && Pattern(FieldsOf(b)) == b
  {
  }

  predicate IsNaN(x: Fields) {
    x.e == 0x7FF && x.f > 0
  }

  predicate IsInfinite(x: Fields) {
    x.e == 0x7FF && x.f == 0
  }

  function Sign(x: Fields, n: int): int {
    if x.negative then -n else n
  }

  /** `v` is n * 2^-k. */
  ghost predicate IsScaled(v: Extended, n: int, k: nat) {
    match v
    case Finite(r) => r * Pow2(k) as real == n as real
    case _ => false
  }

  /** What a pattern denotes: NaN or an infinity for the top exponent, a number for the others. */
  lemma DecodeClass(x: Fields)
    ensures Decode(Pattern(x)) == NotANumber <==> IsNaN(x)
    ensures Decode(Pattern(x)) == PosInf <==> IsInfinite(x) && !x.negative
    ensures Decode(Pattern(x)) == NegInf <==> IsInfinite(x) && x.negative
    ensures Decode(Pattern(x)).Finite? <==> x.e < 0x7FF
  {
    PatternParts(x);
  }

  /** The number: f * 2^-1074 for exponent 0 and (2^52 + f) * 2^(e-1075) for the others, with the sign. */
  lemma DecodeValue(x: Fields)
    requires x.e < 0x7FF
    ensures x.e == 0 ==> IsScaled(Decode(Pattern(x)), Sign(x, x.f), 1074)
    ensures x.e > 0 ==> IsScaled(Decode(Pattern(x)), Sign(x, (Pow2(52) + x.f) * Pow2(x.e)), 1075)
  {
    var u := Units(Magnitude(Pattern(x)));
    ValueOfUnits(x);
    UnitsOfFields(x);
    ScaledUnits(x, u);
    assert Sign(x, 2 * u) == if x.e == 0 then Sign(x, 2 * u) else Sign(x, (Pow2(52) + x.f) * Pow2(x.e));
  }

  lemma ScaledUnits(x: Fields, u: nat)
    ensures var q := u as real / Pow2(1074) as real;
            var v := Finite(if x.negative then -q else q);
            IsScaled(v, Sign(x, u), 1074) && IsScaled(v, Sign(x, 2 * u), 1075)
  {
    NextPower(1074);
    var q := u as real / Pow2(1074) as real;
    Unscaled(x, u, Pow2(1074), if x.negative then -q else q);
  }

  lemma NextPower(n: nat)
    ensures Pow2(n + 1) == 2 * Pow2(n)
  {
  }

  lemma UnitsOfFields(x: Fields)
    ensures x.e == 0 ==> Units(Magnitude(Pattern(x))) == x.f
    ensures x.e > 0 ==> 2 * Units(Magnitude(Pattern(x))) == (Pow2(52) + x.f) * Pow2(x.e)
  {
    PatternParts(x);
    WidthOf52();
    if x.e > 0 { TwiceProduct(TWO_52 + x.f, Pow2(x.e - 1)); }
  }

  lemma ValueOfUnits(x: Fields)
    requires x.e < 0x7FF
    ensures var u := Units(Magnitude(Pattern(x))) as real / Pow2(1074) as real;
            Decode(Pattern(x)) == Finite(if x.negative then -u else u)
  {
    PatternParts(x);
  }

  lemma PatternParts(x: Fields)
    ensures SignBit(Pattern(x)) <==> x.negative
    ensures Magnitude(Pattern(x)) == x.e * 0x10_0000_0000_0000 + x.f
    ensures Magnitude(Pattern(x)) / TWO_52 == x.e && Magnitude(Pattern(x)) % TWO_52 == x.f
  {
  }

  lemma WidthOf52()
    ensures Pow2(52) == 0x10_0000_0000_0000
  {
    WidthsAreModuli();
    Pow2Adds(32, 20);
    Pow2Adds(16, 4);
    assert Pow2(4) == 16 by { assert Pow2(2) == 4; }
  }

  lemma Unscaled(x: Fields, u: nat, d: nat, v: real)
    requires d > 0 && v == if x.negative then -(u as real / d as real) else u as real / d as real
    ensures v * d as real == Sign(x, u) as real && v * (2 * d) as real == Sign(x, 2 * u) as real
  {
    var q, e := u as real / d as real, d as real;
    assert q * e == u as real;
    assert q * (2.0 * e) == 2.0 * (q * e) && (-q) * e == -(q * e) && (-q) * (2.0 * e) == -(2.0 * (q * e));
  }

  lemma TwiceProduct(a: int, p: int)
    ensures 2 * (a * p) == a * (2 * p)
  {
  }

  // ---- what the comparison snippets answer ----

  /** The exponent and fraction as one number, with the sign. */
  function Rank(x: Fields): int {
    if x.negative then -(x.e * 0x10_0000_0000_0000 + x.f) else x.e * 0x10_0000_0000_0000 + x.f
  }

  predicate Ordered(x: Fields, y: Fields) {
    !IsNaN(x) && !IsNaN(y)
  }

  lemma PatternBits(x: Fields)
    ensures DNaN(Pattern(x)) <==> IsNaN(x)
    ensures DInf(Pattern(x)) <==> IsInfinite(x)
    ensures DZero(Pattern(x)) <==> x.e == 0 && x.f == 0
    ensures !IsNaN(x) ==> (DNeg(Pattern(x)) <==> x.negative) && DKey(Pattern(x)) == Rank(x)
  {
    BitsOfPattern(Pattern(x));
    DecodeClass(x);
    PatternParts(x);
    ZeroBits(Pattern(x));
  }

  lemma ZeroBits(b: Bits)
    ensures DZero(b) <==> !DNaN(b) && Magnitude(b) == 0
  {
    BitsOfPattern(b);
  }

  /** The four comparisons, on the fields of any two patterns. */
  lemma ComparisonsOfFields(x: Fields, y: Fields)
    ensures FromDoubles(LtDouble, Pattern(x), Pattern(y)) <==> Ordered(x, y) && Rank(x) < Rank(y)
    ensures FromDoubles(GeDouble, Pattern(x), Pattern(y)) <==> Ordered(x, y) && Rank(x) >= Rank(y)
    ensures FromDoubles(EqDouble, Pattern(x), Pattern(y)) <==> Ordered(x, y) && Rank(x) == Rank(y)
    ensures FromDoubles(NeDouble, Pattern(x), Pattern(y)) <==> !(Ordered(x, y) && Rank(x) == Rank(y))
  {
    var a, b := Pattern(x), Pattern(y);
    PatternBits(x);
    PatternBits(y);
    DoublePairs(EqDouble, a, b);
    DoublePairs(NeDouble, a, b);
    BitsOfPattern(a);
    BitsOfPattern(b);
    if Ordered(x, y) { KeyIsOrderIsomorphism(a, b); }
  }

  /** Unary minus inverts the sign bit of everything but NaN, which has the one canonical pattern. */
  lemma NegationOfFields(x: Fields)
    ensures FromDouble(NegDouble, Pattern(x)) ==
            OfDouble(Pattern(if IsNaN(x) then Fields(false, 0x7FF, 0x8_0000_0000_0000)
                             else x.(negative := !x.negative)))
  {
    PatternBits(x);
    FlippedPattern(x);
  }

  lemma FlippedPattern(x: Fields)
    ensures FlipSign(Pattern(x)) == Pattern(x.(negative := !x.negative))
  {
    PatternParts(x);
  }
}
