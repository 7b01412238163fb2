/** Powers of two. */
module Powers {
  import opened JavaInts

  function Pow2(n: nat): (p: nat)
    ensures p > 0
  {
    if n == 0 then 1 else 2 * Pow2(n - 1)
  }

  lemma {:induction false} Pow2Monotone(a: nat, b: nat)
    requires a <= b
    ensures Pow2(a) <= Pow2(b)
    decreases b - a
  {
    if a < b { Pow2Monotone(a, b - 1); }
  }

  lemma {:induction false} Pow2Adds(a: nat, b: nat)
    ensures Pow2(a + b) == Pow2(a) * Pow2(b)
  {
    if a > 0 {
      Pow2Adds(a - 1, b);
      assert a + b == a - 1 + b + 1;
      TwiceProduct(Pow2(a - 1), Pow2(b));
    }
  }

  lemma TwiceProduct(x: nat, y: nat)
    ensures 2 * (x * y) == (2 * x) * y
  {
  }

  lemma WidthsAreModuli()
    ensures Pow2(16) == 0x1_0000 && Pow2(32) == TWO_32 && Pow2(64) == TWO_64
  {
    assert Pow2(4) == 16 by { assert Pow2(2) == 4; }
    Pow2Adds(4, 4);
    Pow2Adds(8, 8);
    Pow2Adds(16, 16);
    Pow2Adds(32, 32);
  }

  /** A power of two splits only into powers of two: two small factors do not reach a large one. */
  lemma {:induction false} SmallFactors(p: nat, f: nat, k: nat, a: nat, b: nat)
    requires 0 < p < Pow2(a) && 0 < f < Pow2(b) && p * f == Pow2(k)
    ensures k + 2 <= a + b
    decreases k
  {
    if k > 0 {
      if p % 2 == 0 {
        HalfProduct(p, f, Pow2(k - 1));
        SmallFactors(p / 2, f, k - 1, a - 1, b);
      } else {
        OddFactor(p, f, Pow2(k - 1));
        HalfProduct(f, p, Pow2(k - 1));
        SmallFactors(p, f / 2, k - 1, a, b - 1);
      }
    }
  }

  lemma HalfProduct(p: nat, f: nat, h: nat)
    requires p * f == 2 * h && p % 2 == 0
    ensures (p / 2) * f == h
  {
    assert 2 * ((p / 2) * f) == (2 * (p / 2)) * f;
  }

  lemma OddFactor(p: nat, f: nat, h: nat)
    requires p * f == 2 * h && p % 2 == 1
    ensures f % 2 == 0
  {
    assert p * f == 2 * ((p / 2) * f) + f by { assert (2 * (p / 2) + 1) * f == 2 * ((p / 2) * f) + f; }
  }
}
