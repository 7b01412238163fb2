/** IEEE 754 doubles as 64-bit patterns: what a pattern denotes, and the integer key that orders
    them (class F4 of Lib4.java; IEEE 754-2008 sections 3.4 and 5.11). */
module Ieee {
  import opened JavaInts
  import opened Powers

  const TWO_52: int := 0x10_0000_0000_0000
  const INFINITY: int := 0x7FF0_0000_0000_0000
  const NAN: int := 0x7FF8_0000_0000_0000

  type Bits = b: int | 0 <= b < TWO_64

  // ---- the encoded value ----

  /** Everything but the sign. */
  function Magnitude(b: Bits): nat {
    b % TWO_63
  }

  predicate SignBit(b: Bits) {
    b >= TWO_63
  }

  /** The finite magnitude with these exponent and fraction bits, in units of 2^-1074: a denormal
      counts its fraction, a normal number has the hidden leading one. */
  function Units(m: nat): nat {
    var e, f := m / TWO_52, m % TWO_52;
    if e == 0 then f else (TWO_52 + f) * Pow2(e - 1)
  }

  datatype Extended = NotANumber | NegInf | Finite(value: real) | PosInf

  function Decode(b: Bits): Extended {
    var m := Magnitude(b);
    if m > INFINITY then NotANumber
    else if m == INFINITY then if SignBit(b) then NegInf else PosInf
    else
      var u := Units(m) as real / Pow2(1074) as real;
      Finite(if SignBit(b) then -u else u)
  }

  /** The four relations of section 5.11 that the snippets use; a NaN is unordered. */
  predicate Less(x: Extended, y: Extended) {
    match (x, y)
    case (NotANumber, _) => false
    case (_, NotANumber) => false
    case (NegInf, _) => y != NegInf
    case (_, NegInf) => false
    case (_, PosInf) => x != PosInf
    case (PosInf, _) => false
    case (Finite(a), Finite(b)) => a < b
  }

  predicate Equal(x: Extended, y: Extended) {
    x != NotANumber && x == y
  }

  predicate GreaterEqual(x: Extended, y: Extended) {
    Less(y, x) || Equal(x, y)
  }

  // ---- F4, on the bit pattern ----

  /** Double.doubleToLongBits: every NaN has one pattern, everything else its own. */
  function Canonical(b: Bits): Bits {
    if Magnitude(b) > INFINITY then NAN else b
  }

  /** The pattern read as a signed 64-bit long. */
  function DBits(b: Bits): int {
    Wrap64(Canonical(b))
  }

  /** `x & D_MAG`: clearing the sign bit of a long. */
  function ClearSign(x: int): int {
    x % TWO_63
  }

  predicate DNaN(b: Bits) { ClearSign(DBits(b)) > INFINITY }
  predicate DInf(b: Bits) { ClearSign(DBits(b)) == INFINITY }
  predicate DZero(b: Bits) { ClearSign(DBits(b)) == 0 }
  predicate DNeg(b: Bits) { DBits(b) < 0 }

  function DKey(b: Bits): int {
    var x := DBits(b);
    if x < 0 then Wrap64(-TWO_63 - x) else x
  }

  // ---- the key orders the values ----

  lemma BitsOfPattern(b: Bits)
    ensures DNaN(b) <==> Decode(b) == NotANumber
    ensures DInf(b) <==> Decode(b) == PosInf || Decode(b) == NegInf
    ensures !DNaN(b) ==> (DNeg(b) <==> SignBit(b)) && ClearSign(DBits(b)) == Magnitude(b)
    ensures !DNaN(b) ==> DKey(b) == SignedMagnitude(b)
  {
    PatternAsLong(Canonical(b));
    MagnitudeIs(b);
  }

  function SignedMagnitude(b: Bits): int {
    var m: int := Magnitude(b);
    if SignBit(b) then -m else m
  }

  lemma MagnitudeIs(b: Bits)
    ensures Magnitude(b) == if SignBit(b) then b - TWO_63 else b
  {
  }

  /** The pattern as a long: negative exactly when the sign bit is set. */
  lemma PatternAsLong(b: Bits)
    ensures Wrap64(b) == if SignBit(b) then b - TWO_64 else b
    ensures ClearSign(Wrap64(b)) == Magnitude(b)
    ensures SignBit(b) ==> Wrap64(-TWO_63 - Wrap64(b)) == TWO_63 - b
  {
  }

  /** Within one exponent the fraction decides; across exponents the lower binade stays below. */
  lemma UnitsMonotone(m: nat, n: nat)
    requires m < n
    ensures Units(m) < Units(n)
  {
    var e, f, g, h := m / TWO_52, m % TWO_52, n / TWO_52, n % TWO_52;
    assert m == e * TWO_52 + f && n == g * TWO_52 + h;
    if e == g {
      if e > 0 { ScaleStrict(TWO_52 + f, TWO_52 + h, Pow2(e - 1)); }
    } else {
      assert e < g;
      var low := Pow2(g - 1);
      ScaleLe(TWO_52, TWO_52 + h, low);
      if e > 0 {
        ScaleStrict(TWO_52 + f, 2 * TWO_52, Pow2(e - 1));
        assert 2 * TWO_52 * Pow2(e - 1) == TWO_52 * Pow2(e);
        Pow2Monotone(e, g - 1);
        ScaleLe2(TWO_52, Pow2(e), low);
      } else {
        ScaleLe2(TWO_52, 1, low);
      }
    }
  }

  lemma ScaleStrict(a: int, b: int, c: int)
    requires a < b && c > 0
    ensures a * c < b * c
  {
  }

  lemma ScaleLe(a: int, b: int, c: int)
    requires a <= b && c >= 0
    ensures a * c <= b * c
  {
  }

  lemma ScaleLe2(a: int, b: int, c: int)
    requires a >= 0 && b <= c
    ensures a * b <= a * c
  {
  }

  lemma UnitsOrder(m: nat, n: nat)
    ensures Units(m) < Units(n) <==> m < n
    ensures Units(m) == Units(n) <==> m == n
  {
    if m < n { UnitsMonotone(m, n); } else if n < m { UnitsMonotone(n, m); }
  }

  lemma RealOrder(p: int, q: int, d: int)
    requires d > 0
    ensures p as real / d as real < q as real / d as real <==> p < q
    ensures p as real / d as real == q as real / d as real <==> p == q
  {
  }

  /** The signed number of units: what the real comparison comes down to. */
  function Signed(b: Bits): int {
    var u: int := Units(Magnitude(b));
    if SignBit(b) then -u else u
  }

  lemma FiniteOrder(a: Bits, b: Bits)
    requires Decode(a).Finite? && Decode(b).Finite?
    ensures Decode(a).value < Decode(b).value <==> DKey(a) < DKey(b)
    ensures Decode(a).value == Decode(b).value <==> DKey(a) == DKey(b)
  {
    BitsOfPattern(a);
    BitsOfPattern(b);
    UnitsOrder(Magnitude(a), Magnitude(b));
    UnitsOrder(Magnitude(a), 0);
    UnitsOrder(Magnitude(b), 0);
    assert Units(0) == 0;
    FiniteValue(a);
    FiniteValue(b);
    RealOrder(Signed(a), Signed(b), Pow2(1074));
  }

  lemma FiniteValue(b: Bits)
    requires Decode(b).Finite?
    ensures Decode(b).value == Signed(b) as real / Pow2(1074) as real
  {
    NegatedQuotient(Units(Magnitude(b)) as real, Pow2(1074) as real);
  }

  lemma NegatedQuotient(u: real, d: real)
    requires d > 0.0
    ensures -(u / d) == (-u) / d
  {
  }

  /** The key is an order isomorphism on the non-NaN doubles, the two zeros sharing one key. */
  lemma KeyIsOrderIsomorphism(a: Bits, b: Bits)
    requires Decode(a) != NotANumber && Decode(b) != NotANumber
    ensures DKey(a) < DKey(b) <==> Less(Decode(a), Decode(b))
    ensures DKey(a) == DKey(b) <==> Equal(Decode(a), Decode(b))
  {
    BitsOfPattern(a);
    BitsOfPattern(b);
    if Decode(a).Finite? && Decode(b).Finite? { FiniteOrder(a, b); }
  }

  /** The zeros are the only two patterns that denote equal numbers. */
  lemma EqualPatterns(a: Bits, b: Bits)
    requires Decode(a) != NotANumber && Decode(b) != NotANumber
    ensures Equal(Decode(a), Decode(b)) <==> (DZero(a) && DZero(b)) || DBits(a) == DBits(b)
  {
    KeyIsOrderIsomorphism(a, b);
    BitsOfPattern(a);
    BitsOfPattern(b);
    KeyDeterminesPattern(a, b);
  }

  lemma KeyDeterminesPattern(a: Bits, b: Bits)
    requires Magnitude(a) <= INFINITY && Magnitude(b) <= INFINITY
    ensures SignedMagnitude(a) == SignedMagnitude(b) <==>
              (Magnitude(a) == 0 && Magnitude(b) == 0) || DBits(a) == DBits(b)
  {
    PatternAsLong(a);
    PatternAsLong(b);
    MagnitudeIs(a);
    MagnitudeIs(b);
  }

  /** `>=` is the negation of `<` exactly when neither operand is NaN. */
  lemma NegationOfLess(a: Bits, b: Bits)
    ensures (GreaterEqual(Decode(a), Decode(b)) <==> !Less(Decode(a), Decode(b)))
       <==> Decode(a) != NotANumber && Decode(b) != NotANumber
  {
    if Decode(a) != NotANumber && Decode(b) != NotANumber {
      KeyIsOrderIsomorphism(a, b);
      KeyIsOrderIsomorphism(b, a);
    }
  }
}
