/** The capped enumeration, without its memo table, and what the cap does to it. */
module Enumeration {
  import opened JavaInts
  import opened Saturating
  import opened Odometer
  import opened Sequences
  import opened Snippets
  import opened WaterFilling

  // ---- the memo-free recursion (Stitcher.stitch) ----

  function Capped(lib: seq<Snippet>, cap: nat, ty: string, depth: nat): seq<Tree>
    decreases depth, 4
  {
    var cands := ByType(lib, ty);
    Harvest(lib, cap, cands, depth, Quotas(lib, cap, cands, depth))
  }

  function Quotas(lib: seq<Snippet>, cap: nat, cands: seq<Snippet>, depth: nat): (quota: seq<int>)
    ensures |quota| == |cands|
    decreases depth, 3
  {
    FairShare(Offers(lib, cap, cands, depth), cap)
  }

  /** What fills each hole, one level down. */
  function HoleLists(lib: seq<Snippet>, cap: nat, s: Snippet, depth: nat): (lists: seq<seq<Tree>>)
    requires depth > 0
    ensures |lists| == |s.holes|
    decreases depth, 0
  {
    seq(|s.holes|, i requires 0 <= i < |s.holes| => Capped(lib, cap, s.holes[i], depth - 1))
  }

  function Fillings(lib: seq<Snippet>, cap: nat, s: Snippet, depth: nat): seq<seq<Tree>>
    decreases depth, 1
  {
    if s.holes == [] then [[]]
    else if depth == 0 then []
    else Tuples(HoleLists(lib, cap, s, depth))
  }

  /** What a snippet is counted as offering: a saturated 64-bit product. */
  function Offer(lib: seq<Snippet>, cap: nat, s: Snippet, depth: nat): (n: nat)
    ensures n <= SAT
    decreases depth, 1
  {
    if s.holes == [] then 1
    else if depth == 0 then 0
    else SatProduct(Lengths(HoleLists(lib, cap, s, depth)))
  }

  function Offers(lib: seq<Snippet>, cap: nat, cands: seq<Snippet>, depth: nat): (offers: seq<int>)
    ensures |offers| == |cands| && AllWithin(offers, SAT)
    decreases depth, 2
  {
    seq(|cands|, i requires 0 <= i < |cands| => Offer(lib, cap, cands[i], depth))
  }

  /** The first `quota` fillings of each candidate. */
  function Harvest(lib: seq<Snippet>, cap: nat, cands: seq<Snippet>, depth: nat, quota: seq<int>): seq<Tree>
    requires |quota| == |cands|
    decreases depth, 2, |cands| + 1
  {
    if cands == [] then []
    else
      var n := |cands| - 1;
      Harvest(lib, cap, cands[..n], depth, quota[..n]) + Kept(lib, cap, cands[n], depth, quota[n])
  }

  function Kept(lib: seq<Snippet>, cap: nat, s: Snippet, depth: nat, quota: int): seq<Tree>
    decreases depth, 2, 0
  {
    Plant(s, Prefix(Fillings(lib, cap, s, depth), quota))
  }

  function Prefix<T>(s: seq<T>, n: int): seq<T> {
    s[..Max(0, Min(n, |s|))]
  }

  // ---- sizes ----

  /** Every quota is covered by real fillings, whatever the counters did. */
  lemma OfferIsCovered(lib: seq<Snippet>, cap: nat, s: Snippet, depth: nat)
    ensures Offer(lib, cap, s, depth) <= |Fillings(lib, cap, s, depth)|
  {
    if s.holes != [] && depth > 0 {
      var lists := HoleLists(lib, cap, s, depth);
      SatProductIsLower(Lengths(lists));
      TuplesCount(lists);
    }
  }

  lemma {:induction false} HarvestSize(lib: seq<Snippet>, cap: nat, cands: seq<Snippet>, depth: nat, quota: seq<int>)
    requires |quota| == |cands|
    requires forall i :: 0 <= i < |cands| ==> 0 <= quota[i] <= Offer(lib, cap, cands[i], depth)
    ensures |Harvest(lib, cap, cands, depth, quota)| == Sum(quota)
  {
    if cands != [] {
      var n := |cands| - 1;
      HarvestSize(lib, cap, cands[..n], depth, quota[..n]);
      OfferIsCovered(lib, cap, cands[n], depth);
    }
  }

  /** The list kept for one (type, depth) has exactly min(total offer, cap) trees. */
  lemma CappedSize(lib: seq<Snippet>, cap: nat, ty: string, depth: nat)
    ensures |Capped(lib, cap, ty, depth)| == Min(Sum(Offers(lib, cap, ByType(lib, ty), depth)), cap)
  {
    var cands := ByType(lib, ty);
    FairShareIsFair(Offers(lib, cap, cands, depth), cap);
    HarvestSize(lib, cap, cands, depth, Quotas(lib, cap, cands, depth));
  }

  lemma HoleListWithinCap(lib: seq<Snippet>, cap: nat, s: Snippet, depth: nat, i: nat)
    requires depth > 0 && i < |s.holes|
    ensures |HoleLists(lib, cap, s, depth)[i]| <= cap
  {
    CappedSize(lib, cap, s.holes[i], depth - 1);
  }

  /** Up to a cap of 18446 an offer is the true number of fillings, saturated. */
  lemma OfferIsExact(lib: seq<Snippet>, cap: nat, s: Snippet, depth: nat)
    requires cap <= EXACT_CAP
    ensures Offer(lib, cap, s, depth) == Min(|Fillings(lib, cap, s, depth)|, SAT)
  {
    if s.holes != [] && depth > 0 {
      var lists := HoleLists(lib, cap, s, depth);
      forall i | 0 <= i < |lists| ensures Lengths(lists)[i] <= cap { HoleListWithinCap(lib, cap, s, depth, i); }
      SatProductExact(Lengths(lists));
      TuplesCount(lists);
    }
  }

  // ---- a cut keeps well-typed trees, each once, and each snippet keeps a prefix ----

  lemma PrefixMember<T>(s: seq<T>, n: int, x: T)
    ensures x in Prefix(s, n) ==> x in s
  {
  }

  lemma {:induction false} HarvestMember(lib: seq<Snippet>, cap: nat, cands: seq<Snippet>, depth: nat,
                                         quota: seq<int>, t: Tree)
    requires |quota| == |cands| && Distinct(cands)
    ensures t in Harvest(lib, cap, cands, depth, quota) <==>
            exists i :: 0 <= i < |cands| && t.snip == cands[i] &&
              t.kids in Prefix(Fillings(lib, cap, cands[i], depth), quota[i])
  {
    if cands != [] {
      var n := |cands| - 1;
      HarvestMember(lib, cap, cands[..n], depth, quota[..n], t);
      PlantMember(cands[n], Prefix(Fillings(lib, cap, cands[n], depth), quota[n]), t);
      assert forall i :: 0 <= i < n ==> cands[..n][i] == cands[i] && quota[..n][i] == quota[i];
    }
  }

  /** Soundness: the cap never lets in a tree that is not well-typed, too deep, or of another type. */
  lemma {:induction false} CappedIsSound(lib: seq<Snippet>, cap: nat, ty: string, depth: nat, t: Tree)
    requires Distinct(lib) && t in Capped(lib, cap, ty, depth)
    ensures Stitchable(lib, ty, depth, t)
    decreases depth, 1
  {
    var cands := ByType(lib, ty);
    var quota := Quotas(lib, cap, cands, depth);
    ByTypeDistinct(lib, ty);
    HarvestMember(lib, cap, cands, depth, quota, t);
    var i :| 0 <= i < |cands| && t.snip == cands[i] && t.kids in Prefix(Fillings(lib, cap, cands[i], depth), quota[i]);
    PrefixMember(Fillings(lib, cap, cands[i], depth), quota[i], t.kids);
    FillingIsStitchable(lib, cap, t.snip, depth, t.kids);
    StitchableKids(lib, ty, depth, t);
  }

  lemma {:induction false} FillingIsStitchable(lib: seq<Snippet>, cap: nat, s: Snippet, depth: nat, kids: seq<Tree>)
    requires Distinct(lib) && kids in Fillings(lib, cap, s, depth)
    ensures |kids| == |s.holes| && (kids != [] ==> depth > 0)
    ensures forall i :: 0 <= i < |kids| ==> Stitchable(lib, s.holes[i], depth - 1, kids[i])
    decreases depth, 0
  {
    if s.holes != [] {
      TuplesAreAllPicks(HoleLists(lib, cap, s, depth), kids);
      forall i | 0 <= i < |kids| ensures Stitchable(lib, s.holes[i], depth - 1, kids[i]) {
        assert kids[i] in HoleLists(lib, cap, s, depth)[i];
        CappedIsSound(lib, cap, s.holes[i], depth - 1, kids[i]);
      }
    }
  }

  lemma PrefixDistinct<T>(s: seq<T>, n: int)
    requires Distinct(s)
    ensures Distinct(Prefix(s, n))
  {
  }

  lemma {:induction false} HarvestDistinct(lib: seq<Snippet>, cap: nat, cands: seq<Snippet>, depth: nat,
                                           quota: seq<int>)
    requires Distinct(lib) && Distinct(cands) && |quota| == |cands|
    ensures Distinct(Harvest(lib, cap, cands, depth, quota))
    decreases depth, 1, |cands|
  {
    if cands != [] {
      var n := |cands| - 1;
      var s, front := cands[n], Harvest(lib, cap, cands[..n], depth, quota[..n]);
      HarvestDistinct(lib, cap, cands[..n], depth, quota[..n]);
      FillingsDistinct(lib, cap, s, depth);
      var kept := Prefix(Fillings(lib, cap, s, depth), quota[n]);
      PrefixDistinct(Fillings(lib, cap, s, depth), quota[n]);
      PlantDistinct(s, kept);
      forall t | t in front ensures t !in Plant(s, kept) {
        HarvestMember(lib, cap, cands[..n], depth, quota[..n], t);
        PlantMember(s, kept, t);
      }
      DistinctConcat(front, Plant(s, kept));
    }
  }

  lemma {:induction false} FillingsDistinct(lib: seq<Snippet>, cap: nat, s: Snippet, depth: nat)
    requires Distinct(lib)
    ensures Distinct(Fillings(lib, cap, s, depth))
    decreases depth, 0
  {
    if s.holes != [] && depth > 0 {
      var lists := HoleLists(lib, cap, s, depth);
      forall i | 0 <= i < |lists| ensures Distinct(lists[i]) { CappedDistinct(lib, cap, s.holes[i], depth - 1); }
      TuplesAreDistinct(lists);
    }
  }

  lemma {:induction false} CappedDistinct(lib: seq<Snippet>, cap: nat, ty: string, depth: nat)
    requires Distinct(lib)
    ensures Distinct(Capped(lib, cap, ty, depth))
    decreases depth, 2
  {
    ByTypeDistinct(lib, ty);
    var cands := ByType(lib, ty);
    HarvestDistinct(lib, cap, cands, depth, Quotas(lib, cap, cands, depth));
  }

  // ---- completeness ----

  /** Some snippet's quota is below its offer: the enumeration of (ty, depth) is truncated. */
  ghost predicate IsCut(lib: seq<Snippet>, cap: nat, ty: string, depth: nat) {
    var cands := ByType(lib, ty);
    exists i :: 0 <= i < |cands| && Quotas(lib, cap, cands, depth)[i] < Offers(lib, cap, cands, depth)[i]
  }

  lemma CutMeansOverBudget(lib: seq<Snippet>, cap: nat, ty: string, depth: nat)
    ensures IsCut(lib, cap, ty, depth) <==> Sum(Offers(lib, cap, ByType(lib, ty), depth)) > cap
  {
    var cands := ByType(lib, ty);
    var offers, quota := Offers(lib, cap, cands, depth), Quotas(lib, cap, cands, depth);
    FairShareIsFair(offers, cap);
    if !IsCut(lib, cap, ty, depth) {
      assert forall i :: 0 <= i < |cands| ==> quota[i] == offers[i];
      assert quota == offers;
    }
  }

  /** Neither (ty, depth) nor anything it is filled from is truncated. */
  ghost predicate CutFree(lib: seq<Snippet>, cap: nat, ty: string, depth: nat)
    decreases depth
  {
    && !IsCut(lib, cap, ty, depth)
    && (depth > 0 ==> forall s, h :: s in ByType(lib, ty) && h in s.holes ==> CutFree(lib, cap, h, depth - 1))
  }

  /** Where no product wraps round to a small count, a count within the cap is the number of fillings. */
  lemma SmallOfferIsTrue(lib: seq<Snippet>, cap: nat, s: Snippet, depth: nat)
    requires NoSmallWrap(cap) && Offer(lib, cap, s, depth) <= cap
    ensures Offer(lib, cap, s, depth) == |Fillings(lib, cap, s, depth)|
  {
    if s.holes != [] && depth > 0 {
      var lists := HoleLists(lib, cap, s, depth);
      forall i | 0 <= i < |lists| ensures Lengths(lists)[i] <= cap { HoleListWithinCap(lib, cap, s, depth, i); }
      assert Within(Lengths(lists), cap);
      TuplesCount(lists);
    }
  }

  /** Without a cut anywhere below, nothing is missing, at every cap without small wraps. */
  lemma {:induction false} CutFreeIsComplete(lib: seq<Snippet>, cap: nat, ty: string, depth: nat)
    requires NoSmallWrap(cap) && CutFree(lib, cap, ty, depth)
    ensures Capped(lib, cap, ty, depth) == All(lib, ty, depth)
    decreases depth
  {
    var cands := ByType(lib, ty);
    var offers, quota := Offers(lib, cap, cands, depth), Quotas(lib, cap, cands, depth);
    CutMeansOverBudget(lib, cap, ty, depth);
    assert quota == offers;
    forall i | 0 <= i < |cands|
      ensures Fillings(lib, cap, cands[i], depth) == AllFillings(lib, cands[i], depth)
      ensures offers[i] == |Fillings(lib, cap, cands[i], depth)|
    {
      var s := cands[i];
      if s.holes != [] && depth > 0 {
        assert s in cands;
        forall j | 0 <= j < |s.holes| ensures HoleLists(lib, cap, s, depth)[j] == All(lib, s.holes[j], depth - 1) {
          assert s.holes[j] in s.holes;
          CutFreeIsComplete(lib, cap, s.holes[j], depth - 1);
        }
        assert HoleLists(lib, cap, s, depth) ==
               seq(|s.holes|, j requires 0 <= j < |s.holes| => All(lib, s.holes[j], depth - 1));
      }
      OneOfManyFits(offers, i);
      SmallOfferIsTrue(lib, cap, s, depth);
    }
    HarvestIsWhole(lib, cap, cands, depth, quota);
  }

  lemma {:induction false} HarvestIsWhole(lib: seq<Snippet>, cap: nat, cands: seq<Snippet>, depth: nat, quota: seq<int>)
    requires |quota| == |cands|
    requires forall i :: 0 <= i < |cands| ==>
               Fillings(lib, cap, cands[i], depth) == AllFillings(lib, cands[i], depth) &&
               quota[i] == |AllFillings(lib, cands[i], depth)|
    ensures Harvest(lib, cap, cands, depth, quota) == AllOf(lib, cands, depth)
  {
    if cands != [] {
      var n := |cands| - 1;
      HarvestIsWhole(lib, cap, cands[..n], depth, quota[..n]);
    }
  }

  /** What is kept of one snippet is a prefix of its fillings, in nested-loop order. */
  lemma KeptIsPrefix(lib: seq<Snippet>, cap: nat, ty: string, depth: nat, i: nat, kids: seq<Tree>)
    requires Distinct(lib) && i < |ByType(lib, ty)|
    ensures var s := ByType(lib, ty)[i];
            Tree(s, kids) in Capped(lib, cap, ty, depth) <==>
            kids in Prefix(Fillings(lib, cap, s, depth), Quotas(lib, cap, ByType(lib, ty), depth)[i])
  {
    var cands := ByType(lib, ty);
    ByTypeDistinct(lib, ty);
    HarvestAt(lib, cap, cands, depth, Quotas(lib, cap, cands, depth), i, kids);
  }

  lemma HarvestAt(lib: seq<Snippet>, cap: nat, cands: seq<Snippet>, depth: nat, quota: seq<int>, i: nat,
                  kids: seq<Tree>)
    requires |quota| == |cands| && Distinct(cands) && i < |cands|
    ensures Tree(cands[i], kids) in Harvest(lib, cap, cands, depth, quota) <==>
            kids in Prefix(Fillings(lib, cap, cands[i], depth), quota[i])
  {
    HarvestMember(lib, cap, cands, depth, quota, Tree(cands[i], kids));
  }

  /** A cut really loses trees: the first filling past the quota is well-typed and not kept. */
  lemma CutLosesTrees(lib: seq<Snippet>, cap: nat, ty: string, depth: nat)
    requires Distinct(lib) && IsCut(lib, cap, ty, depth)
    ensures exists t :: t in All(lib, ty, depth) && t !in Capped(lib, cap, ty, depth)
  {
    var cands := ByType(lib, ty);
    var i :| 0 <= i < |cands| && Quotas(lib, cap, cands, depth)[i] < Offers(lib, cap, cands, depth)[i];
    var t := FirstLost(lib, cap, cands, depth, i);
    KeptIsPrefix(lib, cap, ty, depth, i, t.kids);
    AllIsExact(lib, ty, depth, t);
    StitchableKids(lib, ty, depth, t);
  }

  lemma FirstLost(lib: seq<Snippet>, cap: nat, cands: seq<Snippet>, depth: nat, i: nat) returns (t: Tree)
    requires Distinct(lib) && i < |cands| && Quotas(lib, cap, cands, depth)[i] < Offers(lib, cap, cands, depth)[i]
    ensures t.snip == cands[i] && |t.kids| == |cands[i].holes| && (t.kids != [] ==> depth > 0)
    ensures forall j :: 0 <= j < |t.kids| ==> Stitchable(lib, cands[i].holes[j], depth - 1, t.kids[j])
    ensures t.kids !in Prefix(Fillings(lib, cap, cands[i], depth), Quotas(lib, cap, cands, depth)[i])
  {
    var s, q := cands[i], Quotas(lib, cap, cands, depth)[i];
    var fillings := Fillings(lib, cap, s, depth);
    FairShareIsFair(Offers(lib, cap, cands, depth), cap);
    OfferIsCovered(lib, cap, s, depth);
    FillingsDistinct(lib, cap, s, depth);
    t := Tree(s, fillings[q]);
    FillingIsStitchable(lib, cap, s, depth, fillings[q]);
  }
}
