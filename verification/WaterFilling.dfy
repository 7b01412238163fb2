/** Splitting a cap fairly over what each snippet offers (Stitcher.waterFill). */
module WaterFilling {
  import opened JavaInts
  import opened Saturating

  // ---- sums over a sequence, taken in loop order ----

  function Sum(s: seq<int>): int {
    if s == [] then 0 else Sum(s[..|s|-1]) + s[|s|-1]
  }

  /** The units handed out when every entry is capped at `level`. */
  function Fill(s: seq<int>, level: int): int {
    if s == [] then 0 else Fill(s[..|s|-1], level) + Min(s[|s|-1], level)
  }

  function CountAbove(s: seq<int>, level: int): (n: nat)
    ensures n <= |s|
  {
    if s == [] then 0 else CountAbove(s[..|s|-1], level) + if s[|s|-1] > level then 1 else 0
  }

  ghost predicate AllWithin(s: seq<int>, hi: int) {
    forall i :: 0 <= i < |s| ==> 0 <= s[i] <= hi
  }

  ghost predicate NonNegative(s: seq<int>) {
    forall i :: 0 <= i < |s| ==> 0 <= s[i]
  }

  lemma {:induction false} PrefixStep(s: seq<int>, k: nat)
    requires k < |s|
    ensures s[..k+1] == s[..k] + [s[k]]
    ensures Sum(s[..k+1]) == Sum(s[..k]) + s[k]
    ensures forall level :: Fill(s[..k+1], level) == Fill(s[..k], level) + Min(s[k], level)
    ensures forall level :: CountAbove(s[..k+1], level) == CountAbove(s[..k], level) + if s[k] > level then 1 else 0
  {
    assert s[..k+1][..k] == s[..k];
  }

  lemma {:induction false} FillBounds(s: seq<int>, level: int)
    requires NonNegative(s) && 0 <= level
    ensures 0 <= Fill(s, level) <= Sum(s)
    ensures Fill(s, level) <= |s| * level
  {
    if s != [] { FillBounds(s[..|s|-1], level); }
  }

  lemma {:induction false} FillStep(s: seq<int>, level: int)
    ensures Fill(s, level + 1) == Fill(s, level) + CountAbove(s, level)
  {
    if s != [] { FillStep(s[..|s|-1], level); }
  }

  lemma {:induction false} FillMonotone(s: seq<int>, lo: int, hi: int)
    requires lo <= hi
    ensures Fill(s, lo) <= Fill(s, hi)
  {
    if s != [] { FillMonotone(s[..|s|-1], lo, hi); }
  }

  /** Raising the level past every entry changes nothing: the fill is the whole sum. */
  lemma {:induction false} FillPastMax(s: seq<int>, level: int)
    requires forall i :: 0 <= i < |s| ==> s[i] <= level
    ensures Fill(s, level) == Sum(s)
  {
    if s != [] { FillPastMax(s[..|s|-1], level); }
  }

  lemma {:induction false} FillReaches(s: seq<int>, level: int, i: nat)
    requires NonNegative(s) && 0 <= level && i < |s|
    ensures Fill(s, level) >= Min(s[i], level)
  {
    if i < |s| - 1 { FillReaches(s[..|s|-1], level, i); } else { FillBounds(s[..|s|-1], level); }
  }

  // ---- the specification: fair shares ----

  /** The largest level not above `hi` whose fill fits the budget. */
  function LevelBelow(offer: seq<int>, budget: nat, hi: nat): (level: nat)
    requires NonNegative(offer)
    ensures level <= hi && Fill(offer, level) <= budget
    ensures forall l :: level < l <= hi ==> Fill(offer, l) > budget
  {
    FillBounds(offer, 0);
    if Fill(offer, hi) <= budget then hi
    else
      assert hi > 0;
      LevelBelow(offer, budget, hi - 1)
  }

  function FairShare(offer: seq<int>, budget: nat): (quota: seq<int>)
    requires NonNegative(offer)
    ensures |quota| == |offer|
  {
    if Sum(offer) <= budget then offer
    else
      var level := LevelBelow(offer, budget, budget);
      SpreadAt(offer, level, budget - Fill(offer, level))
  }

  /** Everybody up to `level`, and one unit more for the first `rem` entries above it. */
  function SpreadAt(offer: seq<int>, level: int, rem: int): (quota: seq<int>)
    ensures |quota| == |offer|
  {
    seq(|offer|, i requires 0 <= i < |offer| => ShareAt(offer, level, rem, i))
  }

  function ShareAt(offer: seq<int>, level: int, rem: int, i: nat): int
    requires i < |offer|
  {
    if offer[i] > level && CountAbove(offer[..i], level) < rem then level + 1 else Min(offer[i], level)
  }

  /** What a fair division promises, without naming a level. Nobody gets more than it offered, the
      budget is used up if there is demand for it, and an entry left short is at most one unit
      behind any other, and behind nobody registered after it. */
  ghost predicate IsFairShare(offer: seq<int>, budget: nat, quota: seq<int>) {
    && |quota| == |offer|
    && (forall i :: 0 <= i < |offer| ==> 0 <= quota[i] <= offer[i])
    && Sum(quota) == Min(Sum(offer), budget)
    && (forall i, j :: 0 <= i < |offer| && 0 <= j < |offer| && quota[i] < offer[i] ==>
          quota[j] <= quota[i] + if i < j then 0 else 1)
  }

  lemma {:induction false} SpreadSum(offer: seq<int>, level: int, rem: nat, k: nat)
    requires k <= |offer|
    ensures Sum(SpreadAt(offer, level, rem)[..k])
         == Fill(offer[..k], level) + Min(rem, CountAbove(offer[..k], level))
  {
    if k > 0 {
      SpreadSum(offer, level, rem, k - 1);
      PrefixStep(SpreadAt(offer, level, rem), k - 1);
      PrefixStep(offer, k - 1);
    }
  }

  lemma {:induction false} CountAboveMonotone(s: seq<int>, level: int, i: nat, j: nat)
    requires i <= j <= |s|
    ensures CountAbove(s[..i], level) <= CountAbove(s[..j], level)
  {
    if i < j {
      CountAboveMonotone(s, level, i, j - 1);
      PrefixStep(s, j - 1);
    }
  }

  /** The level found leaves less than one unit for each entry still short: one pass spends it all. */
  lemma RemainderIsSmall(offer: seq<int>, budget: nat)
    requires NonNegative(offer) && Sum(offer) > budget
    ensures var level := LevelBelow(offer, budget, budget);
            && 0 <= budget - Fill(offer, level) < CountAbove(offer, level)
            && (level == budget ==> Fill(offer, level) == budget)
  {
    var level := LevelBelow(offer, budget, budget);
    FillStep(offer, level);
    if level == budget {
      if forall i :: 0 <= i < |offer| ==> offer[i] <= budget {
        FillPastMax(offer, budget);
      } else {
        var i :| 0 <= i < |offer| && offer[i] > budget;
        FillReaches(offer, budget, i);
        CountAboveMonotone(offer, level, i + 1, |offer|);
        PrefixStep(offer, i);
        assert offer[..|offer|] == offer;
      }
    }
  }

  lemma SpreadIsEven(offer: seq<int>, level: nat, rem: int, i: nat, j: nat)
    requires NonNegative(offer) && i < |offer| && j < |offer|
    ensures var quota := SpreadAt(offer, level, rem);
            && 0 <= quota[i] <= offer[i]
            && (quota[i] < offer[i] ==> quota[j] <= quota[i] + if i < j then 0 else 1)
  {
    if i < j { CountAboveMonotone(offer, level, i, j); }
  }

  lemma SpreadIsFair(offer: seq<int>, budget: nat, level: nat, rem: nat)
    requires NonNegative(offer) && Sum(offer) > budget
    requires rem == budget - Fill(offer, level) < CountAbove(offer, level)
    ensures IsFairShare(offer, budget, SpreadAt(offer, level, rem))
  {
    var quota := SpreadAt(offer, level, rem);
    assert Sum(quota) == budget by {
      SpreadSum(offer, level, rem, |offer|);
      assert quota[..|offer|] == quota && offer[..|offer|] == offer;
    }
    forall i, j | 0 <= i < |offer| && 0 <= j < |offer|
      ensures 0 <= quota[i] <= offer[i]
      ensures quota[i] < offer[i] ==> quota[j] <= quota[i] + if i < j then 0 else 1
    {
      SpreadIsEven(offer, level, rem, i, j);
    }
  }

  lemma WholeOfferIsFair(offer: seq<int>, budget: nat)
    requires NonNegative(offer) && Sum(offer) <= budget
    ensures IsFairShare(offer, budget, offer)
  {
  }

  lemma FairShareIsFair(offer: seq<int>, budget: nat)
    requires NonNegative(offer)
    ensures IsFairShare(offer, budget, FairShare(offer, budget))
  {
    if Sum(offer) <= budget {
      WholeOfferIsFair(offer, budget);
    } else {
      RemainderIsSmall(offer, budget);
      var level := LevelBelow(offer, budget, budget);
      SpreadIsFair(offer, budget, level, budget - Fill(offer, level));
    }
  }

  /** Best at every threshold at once: no feasible allocation gives its entries, each counted up
      to `t`, more than the fair share does. */
  lemma FairShareIsOptimal(offer: seq<int>, budget: nat, q: seq<int>, t: nat)
    requires NonNegative(offer) && |q| == |offer|
    requires forall i :: 0 <= i < |offer| ==> 0 <= q[i] <= offer[i]
    requires Sum(q) <= budget
    ensures Fill(FairShare(offer, budget), t) >= Fill(q, t)
  {
    var quota := FairShare(offer, budget);
    FairShareIsFair(offer, budget);
    if forall i :: 0 <= i < |quota| ==> Min(quota[i], t) == Min(offer[i], t) {
      FillPointwise(q, quota, t);
    } else {
      var i :| 0 <= i < |quota| && Min(quota[i], t) != Min(offer[i], t);
      forall j | 0 <= j < |quota| ensures quota[j] <= t {}
      FillPastMax(quota, t);
      FillBounds(q, t);
      SumPointwise(q, offer);
    }
  }

  lemma {:induction false} FillPointwise(a: seq<int>, b: seq<int>, t: int)
    requires |a| == |b| && forall i :: 0 <= i < |a| ==> Min(a[i], t) <= Min(b[i], t)
    ensures Fill(a, t) <= Fill(b, t)
  {
    if a != [] { FillPointwise(a[..|a|-1], b[..|b|-1], t); }
  }

  lemma {:induction false} SumPointwise(a: seq<int>, b: seq<int>)
    requires |a| == |b| && forall i :: 0 <= i < |a| ==> a[i] <= b[i]
    ensures Sum(a) <= Sum(b)
    ensures Sum(a) == Sum(b) ==> a == b
  {
    if a != [] { SumPointwise(a[..|a|-1], b[..|b|-1]); }
  }

  /** The promise determines the division, so `FairShare` is the only fair one. */
  lemma FairShareIsUnique(offer: seq<int>, budget: nat, p: seq<int>, q: seq<int>)
    requires IsFairShare(offer, budget, p) && IsFairShare(offer, budget, q)
    ensures p == q
  {
    forall i, j | 0 <= i < |p| && 0 <= j < |p| ensures !(p[i] > q[i] && q[j] > p[j]) {}
    if exists i :: 0 <= i < |p| && p[i] > q[i] {
      SumPointwise(q, p);
    } else {
      SumPointwise(p, q);
    }
  }

  /** No starvation, exactly: every snippet with something to offer keeps something if and only
      if there are no more such snippets than the budget has units. */
  lemma NobodyStarves(offer: seq<int>, budget: nat)
    requires NonNegative(offer)
    ensures (forall i :: 0 <= i < |offer| && offer[i] > 0 ==> FairShare(offer, budget)[i] > 0)
       <==> CountAbove(offer, 0) <= budget
  {
    var quota := FairShare(offer, budget);
    FairShareIsFair(offer, budget);
    if forall i :: 0 <= i < |offer| && offer[i] > 0 ==> quota[i] > 0 {
      CountIsPaidFor(offer, quota);
    }
    assert quota[..|offer|] == quota && offer[..|offer|] == offer;
    forall i | 0 <= i < |offer| && offer[i] > 0 && quota[i] == 0
      ensures CountAbove(offer, 0) > budget
    {
      if Sum(quota) == Sum(offer) { SumPointwise(quota, offer); }
      ShortEntryBoundsSum(offer, quota, i, |offer|);
    }
  }

  lemma {:induction false} CountIsPaidFor(offer: seq<int>, quota: seq<int>)
    requires |offer| == |quota|
    requires forall i :: 0 <= i < |offer| ==> 0 <= quota[i] && (offer[i] > 0 ==> quota[i] > 0)
    ensures CountAbove(offer, 0) <= Sum(quota)
  {
    if offer != [] { CountIsPaidFor(offer[..|offer|-1], quota[..|quota|-1]); }
  }

  /** If entry `i` got nothing, everybody else got at most one unit, and only if it had an offer. */
  lemma {:induction false} ShortEntryBoundsSum(offer: seq<int>, quota: seq<int>, i: nat, k: nat)
    requires |offer| == |quota| && i < |offer| && k <= |offer|
    requires offer[i] > 0 && quota[i] == 0
    requires forall j :: 0 <= j < |offer| ==> 0 <= quota[j] <= offer[j] && quota[j] <= 1
    ensures Sum(quota[..k]) <= CountAbove(offer[..k], 0) - if i < k then 1 else 0
  {
    if k > 0 {
      ShortEntryBoundsSum(offer, quota, i, k - 1);
      PrefixStep(quota, k - 1);
      PrefixStep(offer, k - 1);
    }
  }

  // ---- the implementation ----

  /** Stitcher.fill: the same sum, saturating. */
  method SaturatingFill(offer: array<int>, level: int) returns (s: int)
    requires AllWithin(offer[..], SAT) && 0 <= level < TWO_31
    ensures s == Min(Fill(offer[..], level), SAT)
  {
    s := 0;
    for i := 0 to offer.Length
      invariant s == Min(Fill(offer[..i], level), SAT) && 0 <= Fill(offer[..i], level)
    {
      assert offer[..][..i] == offer[..i] && offer[..][..i+1] == offer[..i+1];
      PrefixStep(offer[..], i);
      s := Sat(Wrap64(s + if offer[i] < level then offer[i] else level));
    }
    assert offer[..offer.Length] == offer[..];
  }

  /** The saturated total. */
  method Total(offer: array<int>) returns (total: int)
    requires AllWithin(offer[..], SAT)
    ensures total == Min(Sum(offer[..]), SAT)
  {
    ghost var O := offer[..];
    total := 0;
    for i := 0 to offer.Length
      invariant total == Min(Sum(O[..i]), SAT) && 0 <= Sum(O[..i])
    {
      PrefixStep(O, i);
      total := Sat(Wrap64(total + offer[i]));
    }
    assert O[..offer.Length] == O;
  }

  /** The binary search for the level. */
  method FindLevel(offer: array<int>, budget: int) returns (level: int)
    requires AllWithin(offer[..], SAT) && 0 <= budget < TWO_31
    ensures level == LevelBelow(offer[..], budget, budget)
  {
    ghost var O := offer[..];
    var lo, hi := 0, budget;
    FillBounds(O, 0);
    while lo < hi
      invariant 0 <= lo <= hi <= budget
      invariant Fill(O, lo) <= budget
      invariant forall l :: hi < l <= budget ==> Fill(O, l) > budget
    {
      var mid := lo + (hi - lo + 1) / 2;
      var filled := SaturatingFill(offer, mid);
      if filled <= budget {
        lo := mid;
      } else {
        hi := mid - 1;
        forall l | hi < l <= budget ensures Fill(O, l) > budget { FillMonotone(O, mid, l); }
      }
    }
    level := lo;
  }

  /** Everybody's share up to the level. */
  method ShareLevel(offer: array<int>, level: int) returns (quota: array<int>)
    requires AllWithin(offer[..], SAT) && 0 <= level < TWO_31
    ensures fresh(quota) && quota.Length == offer.Length
    ensures forall k :: 0 <= k < offer.Length ==> quota[k] == Min(offer[k], level)
  {
    quota := new int[offer.Length];
    for i := 0 to offer.Length
      invariant forall k :: 0 <= k < i ==> quota[k] == Min(offer[k], level)
    {
      quota[i] := Wrap32(if offer[i] < level then offer[i] else level);
    }
  }

  /** The remainder, one unit each in registration order. */
  method SpreadRemainder(offer: array<int>, level: int, remainder: nat, quota: array<int>)
    requires offer != quota && offer.Length == quota.Length
    requires 0 <= level < TWO_31 && (remainder > 0 ==> level + 1 < TWO_31)
    requires forall k :: 0 <= k < offer.Length ==> quota[k] == Min(offer[k], level)
    modifies quota
    ensures quota[..] == SpreadAt(offer[..], level, remainder)
  {
    ghost var O := offer[..];
    var n := offer.Length;
    var rem := remainder;
    var i := 0;
    while i < n && rem > 0
      invariant 0 <= i <= n && offer[..] == O
      invariant rem == Max(0, remainder - CountAbove(O[..i], level))
      invariant forall k :: 0 <= k < i ==> quota[k] == ShareAt(O, level, remainder, k)
      invariant forall k :: i <= k < n ==> quota[k] == Min(O[k], level)
    {
      PrefixStep(O, i);
      if offer[i] > quota[i] {
        quota[i] := Wrap32(quota[i] + 1);
        rem := rem - 1;
      }
      i := i + 1;
    }
    SpreadRest(O, level, remainder, i, quota[..]);
  }

  /** Once the remainder is spent the entries left have their share already. */
  lemma SpreadRest(offer: seq<int>, level: int, rem: nat, i: nat, quota: seq<int>)
    requires |quota| == |offer| && i <= |offer| && (i == |offer| || CountAbove(offer[..i], level) >= rem)
    requires forall k :: 0 <= k < i ==> quota[k] == ShareAt(offer, level, rem, k)
    requires forall k :: i <= k < |offer| ==> quota[k] == Min(offer[k], level)
    ensures quota == SpreadAt(offer, level, rem)
  {
    forall k | i <= k < |offer| ensures quota[k] == ShareAt(offer, level, rem, k) {
      CountAboveMonotone(offer, level, i, k);
    }
  }

  method WaterFill(offer: array<int>, budget: int) returns (quota: array<int>)
    requires AllWithin(offer[..], SAT) && 0 <= budget < TWO_31
    ensures quota[..] == FairShare(offer[..], budget)
  {
    var n := offer.Length;
    var total := Total(offer);
    if total <= budget {
      quota := new int[n];
      for i := 0 to n
        invariant forall k :: 0 <= k < i ==> quota[k] == offer[k]
      {
        OneOfManyFits(offer[..], i);
        quota[i] := Wrap32(offer[i]);
      }
      assert quota[..] == offer[..];
    } else {
      var level := FindLevel(offer, budget);
      var used := SaturatingFill(offer, level);
      RemainderIsSmall(offer[..], budget);
      quota := ShareLevel(offer, level);
      SpreadRemainder(offer, level, budget - used, quota);
    }
  }

  lemma {:induction false} OneOfManyFits(s: seq<int>, i: nat)
    requires NonNegative(s) && i < |s|
    ensures s[i] <= Sum(s)
  {
    FillReaches(s, s[i], i);
    FillBounds(s, s[i]);
  }
}
