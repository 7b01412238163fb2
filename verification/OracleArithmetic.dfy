/** The generator's roundabout arithmetic meets the mathematical definitions of the language. */
module OracleArithmetic {
  import opened JavaInts
  import opened Powers
  import opened Odometer
  import opened Composition
  import opened JavaSemantics
  import opened Ieee

  lemma LowIntIsWrap(x: int)
    ensures Low(IntK, x) == Wrap32(x)
  {
  }

  lemma LowLongIsWrap(x: int)
    ensures Low(LongK, x) == Wrap64(x)
  {
  }

  lemma LowIsWrap(x: int)
    ensures Low(IntK, x) == Wrap32(x)
    ensures Low(LongK, x) == Wrap64(x)
    ensures Low(CharK, x) == x % 0x1_0000
  {
    LowIntIsWrap(x);
    LowLongIsWrap(x);
  }

  lemma LowOfInRange(k: Kind, x: int)
    requires InRange(k, x)
    ensures Low(k, x) == x
  {
  }

  lemma LowOfNarrowed(x: int)
    ensures Wrap32(Wrap64(x)) == Wrap32(x)
  {
  }

  // ---- division and remainder ----

  lemma DivisorSign(a: nat, b: int)
    requires b != 0
    ensures a / b == if b > 0 then a / Abs(b) else -(a / Abs(b))
  {
  }

  /** Rounding toward zero is the quotient of largest magnitude not beyond the dividend. */
  lemma TruncatedIsQuotient(a: int, b: int)
    requires b != 0
    ensures Truncated(a, b) == Quotient(a, b)
  {
    DivisorSign(Abs(a), b);
  }

  lemma DivAtMost(a: nat, d: nat)
    requires d > 0
    ensures 0 <= a / d <= a
    ensures d > 1 && a > 0 ==> a / d < a
    ensures d == 1 ==> a / d == a
  {
    var q := a / d;
    assert a == q * d + a % d;
    if q > 0 {
      MulDistributes(d, 1, q);
      if d > 1 { MulAtLeast(d - 1, q); }
    }
  }

  /** The quotient overflows in exactly the one named case. */
  lemma QuotientFits(a: int, b: int, half: int)
    requires -half <= a < half && b != 0
    ensures -half <= Quotient(a, b) < half <==> !(a == -half && b == -1)
  {
    DivAtMost(Abs(a), Abs(b));
  }

  lemma Split(n: nat, d: nat)
    requires d > 0
    ensures n == (n / d) * d + n % d && 0 <= n % d < d && (n / d) * d >= 0
  {
  }

  lemma SignedProduct(q: int, b: int, negative: bool)
    ensures (if negative != (b < 0) then -q else q) * b == if negative then -(q * Abs(b)) else q * Abs(b)
  {
  }

  /** Multiplying back keeps the dividend's sign and stays within its magnitude. */
  lemma QuotientTimesDivisor(a: int, b: int)
    requires b != 0
    ensures var p := (Abs(a) / Abs(b)) * Abs(b);
            Quotient(a, b) * b == if a < 0 then -p else p
  {
    SignedProduct(Abs(a) / Abs(b), b, a < 0);
  }

  /** The identity that fixes the remainder, and why forming it never wraps. */
  lemma RemainderByIdentity(a: int, b: int)
    requires b != 0
    ensures a - Quotient(a, b) * b == Remainder(a, b)
    ensures Abs(Quotient(a, b) * b) <= Abs(a)
    ensures Abs(Remainder(a, b)) <= Abs(a)
  {
    QuotientTimesDivisor(a, b);
    Split(Abs(a), Abs(b));
    SignsAgree(a, (Abs(a) / Abs(b)) * Abs(b), Abs(a) % Abs(b), Quotient(a, b) * b, Remainder(a, b));
  }

  lemma SignsAgree(a: int, p: nat, r: nat, back: int, rem: int)
    requires Abs(a) == p + r
    requires back == (if a < 0 then -(p as int) else p) && rem == if a < 0 then -(r as int) else r
    ensures a - back == rem && Abs(back) <= Abs(a) && Abs(rem) <= Abs(a)
  {
  }

  /** The reference quotient is the one integer the language rule describes. */
  lemma QuotientIsTheRule(n: int, d: int, q: int)
    requires d != 0
    ensures q == Quotient(n, d) <==>
            && Abs(q) * Abs(d) <= Abs(n) < Abs(q) * Abs(d) + Abs(d)
            && (q > 0 ==> (n < 0) == (d < 0)) && (q < 0 ==> (n < 0) != (d < 0))
  {
    Split(Abs(n), Abs(d));
    MagnitudeIsTheRule(Abs(n), Abs(d), Abs(q));
  }

  lemma MagnitudeIsTheRule(n: nat, d: nat, m: nat)
    requires d > 0
    ensures m == n / d <==> m * d <= n < m * d + d
  {
    Split(n, d);
    if m * d <= n < m * d + d { DivModUnique(n, d, m, n - m * d); }
  }

  // ---- bitwise complement ----

  lemma {:induction false} InvertBitsIs(u: nat, bits: nat)
    requires u < Pow2(bits)
    ensures InvertBits(u, bits) == Pow2(bits) - 1 - u
  {
    if bits > 0 {
      InvertBitsIs(u / 2, bits - 1);
      assert u == 2 * (u / 2) + u % 2;
    }
  }

  /** Inverting all bits is negating and subtracting one, at both widths and for every operand. */
  lemma ComplementIs(k: Kind, a: int)
    requires (k == IntK || k == LongK) && InRange(k, a)
    ensures Low(k, InvertBits(a % Modulus(k), Width(k))) == -a - 1
  {
    WidthsAreModuli();
    InvertBitsIs(a % Modulus(k), Width(k));
    ComplementLow(k, a);
  }

  lemma ComplementLow(k: Kind, a: int)
    requires (k == IntK || k == LongK) && InRange(k, a)
    ensures Low(k, Modulus(k) - 1 - a % Modulus(k)) == -a - 1
  {
  }
}
