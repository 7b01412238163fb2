/** The saturating 64-bit counters of the enumerator (Stitcher.SAT and Stitcher.sat). */
module Saturating {
  import opened JavaInts
  import opened Powers
  import opened Sequences

  const SAT: int := 1_000_000_000_000_000

  /** The longest hole lists for which a saturated product cannot wrap back below SAT. */
  const EXACT_CAP: int := 18446

  /** The longest for which it cannot wrap back to nothing. */
  const KEEP_CAP: int := 32767

  function Sat(v: int): (r: int)
    ensures 0 <= r <= SAT
  {
    if v < 0 || v > SAT then SAT else v
  }

  /** The running sums, on 64-bit longs. */
  function SatSum(a: int, b: int): int {
    Sat(Wrap64(a + b))
  }

  function SatTimes(a: int, b: int): int {
    Sat(Wrap64(a * b))
  }

  function Product(lens: seq<nat>): nat {
    if lens == [] then 1 else lens[0] * Product(lens[1..])
  }

  /** The running `product = sat(product * length)`, on 64-bit longs. */
  function SatProduct(lens: seq<nat>): (p: nat)
    ensures p <= SAT
  {
    if lens == [] then 1 else Sat(Wrap64(SatProduct(lens[..|lens|-1]) * lens[|lens|-1]))
  }

  lemma {:induction false} ProductSnoc(lens: seq<nat>, last: nat)
    ensures Product(lens + [last]) == Product(lens) * last
  {
    if lens == [] {
      assert [last][1..] == [];
    } else {
      ProductSnoc(lens[1..], last);
      assert (lens + [last])[1..] == lens[1..] + [last];
      assert lens[0] * (Product(lens[1..]) * last) == (lens[0] * Product(lens[1..])) * last;
    }
  }

  lemma {:induction false} ProductPositive(lens: seq<nat>)
    ensures Product(lens) > 0 <==> forall i :: 0 <= i < |lens| ==> lens[i] > 0
  {
    if lens != [] {
      ProductPositive(lens[1..]);
      if Product(lens[1..]) > 0 && lens[0] > 0 {
        assert lens[0] * Product(lens[1..]) > 0;
        forall i | 0 <= i < |lens| ensures lens[i] > 0 { if i > 0 { assert lens[i] == lens[1..][i-1]; } }
      } else if lens[0] > 0 {
        var i :| 0 <= i < |lens[1..]| && lens[1..][i] == 0;
        assert lens[i+1] == 0;
      }
    }
  }

  /** Whatever the lengths, wrap-around only ever makes the count too small. */
  lemma {:induction false} SatProductIsLower(lens: seq<nat>)
    ensures SatProduct(lens) <= Product(lens)
  {
    if lens != [] {
      var init, last := lens[..|lens|-1], lens[|lens|-1];
      SatProductIsLower(init);
      InitLast(lens);
      SatProductSnoc(init, last);
      MulMonotone(0, SatProduct(init), last);
      MulMonotone(SatProduct(init), Product(init), last);
      SatIsLower(SatProduct(init) * last);
    }
  }

  lemma SatIsLower(x: nat)
    ensures Sat(Wrap64(x)) <= x
  {
  }

  /** A 64-bit value below 2^64 saturates correctly even when its sign bit is set. */
  lemma SatOfUnsigned(x: nat)
    requires x < TWO_64
    ensures Sat(Wrap64(x)) == Min(x, SAT)
  {
  }

  lemma MulMonotone(a: nat, b: nat, c: nat)
    requires a <= b
    ensures a * c <= b * c
  {
  }

  /** One step: within the exact range a saturated count times a length saturates correctly. */
  lemma SatStepExact(truth: nat, last: nat)
    requires last <= EXACT_CAP
    ensures Sat(Wrap64(Min(truth, SAT) * last)) == Min(truth * last, SAT)
  {
    var p := Min(truth, SAT);
    MulMonotone(p, SAT, last);
    SatOfUnsigned(p * last);
    if truth > SAT {
      MulMonotone(SAT, truth, last);
      if last > 0 { MulMonotone(1, last, SAT); }
    }
  }

  lemma {:induction false} SatProductExact(lens: seq<nat>)
    requires forall i :: 0 <= i < |lens| ==> lens[i] <= EXACT_CAP
    ensures SatProduct(lens) == Min(Product(lens), SAT)
  {
    if lens != [] {
      var init, last := lens[..|lens|-1], lens[|lens|-1];
      SatProductExact(init);
      ProductSnoc(init, last);
      assert init + [last] == lens;
      SatStepExact(Product(init), last);
    }
  }

  lemma SatProductSnoc(lens: seq<nat>, last: nat)
    ensures SatProduct(lens + [last]) == Sat(Wrap64(SatProduct(lens) * last))
    ensures Product(lens + [last]) == Product(lens) * last
  {
    assert (lens + [last])[..|lens|] == lens;
    ProductSnoc(lens, last);
  }

  const WRAPPING: seq<nat> := [18447, 18447, 18447, 18447, 18447]

  /** One length more, from a known count. */
  lemma SatProductStep(lens: seq<nat>, k: nat, p: nat)
    requires k < |lens| && SatProduct(lens[..k]) == p
    ensures SatProduct(lens[..k+1]) == Sat(Wrap64(p * lens[k]))
    ensures p * lens[k] < TWO_64 ==> SatProduct(lens[..k+1]) == Min(p * lens[k], SAT)
    ensures Product(lens[..k+1]) == Product(lens[..k]) * lens[k]
  {
    Snoc(lens, k);
    SatProductSnoc(lens[..k], lens[k]);
    if p * lens[k] < TWO_64 { SatOfUnsigned(p * lens[k]); }
  }

  /** Five holes over 18447 fillings each: the true product is past 10^21, the count says less. */
  lemma SatProductWraps()
    ensures SatProduct(WRAPPING) == 255_926_290_448_384 < SAT < Product(WRAPPING)
  {
    var w := WRAPPING;
    assert w[..0] == [];
    SatProductStep(w, 0, 1);
    SatProductStep(w, 1, 18447);
    SatProductStep(w, 2, 340_291_809);
    SatProductStep(w, 3, 6_277_363_000_623);
    SatProductStep(w, 4, SAT);
    assert Wrap64(SAT * 18447) == 255_926_290_448_384;
    WholePrefix(w);
  }

  // ---- three questions about a cap, and their exact answers ----

  ghost predicate Within(lens: seq<nat>, cap: nat) {
    forall i :: 0 <= i < |lens| ==> lens[i] <= cap
  }

  ghost predicate ExactCount(lens: seq<nat>) {
    SatProduct(lens) == Min(Product(lens), SAT)
  }

  /** The recorded count is the true product, saturated, for all hole lists up to a cap exactly
      when the cap is at most 18446. */
  lemma CountsAreExactUpTo(cap: nat)
    ensures (forall lens: seq<nat> :: Within(lens, cap) ==> ExactCount(lens)) <==> cap <= EXACT_CAP
  {
    if cap <= EXACT_CAP {
      forall lens: seq<nat> | Within(lens, cap) ensures ExactCount(lens) { SatProductExact(lens); }
    } else {
      SatProductWraps();
      assert Within(WRAPPING, cap) && !ExactCount(WRAPPING);
    }
  }

  /** A count that fits the cap is true: no product of lists within the cap wraps round to a small one. */
  ghost predicate NoSmallWrap(cap: nat) {
    forall lens: seq<nat> :: Within(lens, cap) && SatProduct(lens) <= cap ==> SatProduct(lens) == Product(lens)
  }

  const LYING: seq<nat> := [8856, 11461, 1627, 6043, 18485]

  lemma LyingWraps()
    ensures SatProduct(LYING) == 14744 && Product(LYING) == TWO_64 + 14744
  {
    var c := LYING;
    assert c[..0] == [];
    SatProductStep(c, 0, 1);
    SatProductStep(c, 1, 8856);
    SatProductStep(c, 2, 101_498_616);
    SatProductStep(c, 3, 165_138_248_232);
    SatProductStep(c, 4, 997_930_434_065_976);
    assert Wrap64(TWO_64 + 14744) == 14744;
    WholePrefix(c);
  }

  /** No small wrap up to the cap for which all counts are exact; a small wrap from 18485 on. */
  lemma SmallWraps(cap: nat)
    ensures cap <= EXACT_CAP ==> NoSmallWrap(cap)
    ensures cap >= 18485 ==> !NoSmallWrap(cap)
  {
    if cap <= EXACT_CAP {
      forall lens: seq<nat> | Within(lens, cap) && SatProduct(lens) <= cap ensures SatProduct(lens) == Product(lens) {
        SatProductExact(lens);
      }
    }
    if cap >= 18485 {
      LyingWraps();
      assert Within(LYING, cap);
    }
  }

  // ---- counts that wrap to nothing ----

  lemma NotTwoTo64(p: nat, f: nat)
    requires 0 < p <= SAT && 0 < f <= KEEP_CAP
    ensures p * f != TWO_64
  {
    SatBelow();
    if p * f == TWO_64 { SmallFactors(p, f, 64, 50, 15); }
  }

  lemma SatBelow()
    ensures SAT < Pow2(50) && KEEP_CAP < Pow2(15) && Pow2(64) == TWO_64
  {
    WidthsAreModuli();
    Pow2Adds(32, 18);
    Pow2Adds(16, 2);
    assert Pow2(2) == 4 && Pow2(16) == 2 * Pow2(15);
  }

  lemma SatKeepsPositive(x: nat)
    requires 0 < x < 2 * TWO_64 && x != TWO_64
    ensures Sat(Wrap64(x)) > 0
  {
  }

  /** Up to a cap of 32767 a count is nothing only when the product is. */
  lemma {:induction false} SatProductPositive(lens: seq<nat>)
    requires Within(lens, KEEP_CAP)
    ensures SatProduct(lens) > 0 <==> forall i :: 0 <= i < |lens| ==> lens[i] > 0
  {
    if lens != [] {
      var init, last := lens[..|lens|-1], lens[|lens|-1];
      SatProductPositive(init);
      var p := SatProduct(init);
      InitLast(lens);
      SatProductSnoc(init, last);
      assert (forall i :: 0 <= i < |lens| ==> lens[i] > 0) <==>
               (forall i :: 0 <= i < |init| ==> init[i] > 0) && last > 0 by {
        assert forall i :: 0 <= i < |init| ==> init[i] == lens[i];
      }
      if p > 0 && last > 0 {
        NotTwoTo64(p, last);
        BelowTwice(p, last);
        SatKeepsPositive(p * last);
      } else {
        assert p * last == 0;
      }
    }
  }

  lemma BelowTwice(p: nat, f: nat)
    requires 0 < p <= SAT && 0 < f <= KEEP_CAP
    ensures 0 < p * f < 2 * TWO_64
  {
    MulMonotone(p, SAT, f);
    MulMonotone(1, f, p);
  }

  const VANISHING: seq<nat> := [32768, 32768, 32768, 16, 32768]

  /** One more and it can: a product of exactly 2^64 counts as nothing. */
  lemma VanishingWraps()
    ensures SatProduct(VANISHING) == 0 && Product(VANISHING) == TWO_64
  {
    var v := VANISHING;
    assert v[..0] == [];
    SatProductStep(v, 0, 1);
    SatProductStep(v, 1, 32768);
    SatProductStep(v, 2, 1_073_741_824);
    SatProductStep(v, 3, 35_184_372_088_832);
    SatProductStep(v, 4, 562_949_953_421_312);
    assert Wrap64(TWO_64) == 0;
    WholePrefix(v);
  }
}
