/** What the cap never loses, and the one way the enumeration can lose trees in silence. */
module Coverage {
  import opened JavaInts
  import opened Saturating
  import opened Odometer
  import opened Sequences
  import opened Snippets
  import opened Rules
  import opened WaterFilling
  import opened Enumeration

  // ---- a type with any tree keeps some ----

  lemma {:induction false} OfferIsPositive(lib: seq<Snippet>, cap: nat, s: Snippet, depth: nat)
    requires 0 < cap <= KEEP_CAP
    ensures Offer(lib, cap, s, depth) > 0 <==> AllFillings(lib, s, depth) != []
    decreases depth, 0
  {
    if s.holes != [] && depth > 0 {
      var kept := HoleLists(lib, cap, s, depth);
      var whole := seq(|s.holes|, i requires 0 <= i < |s.holes| => All(lib, s.holes[i], depth - 1));
      forall i | 0 <= i < |s.holes| ensures kept[i] == [] <==> whole[i] == [] {
        EmptyTogether(lib, cap, s.holes[i], depth - 1);
      }
      forall i | 0 <= i < |kept| ensures Lengths(kept)[i] <= KEEP_CAP { HoleListWithinCap(lib, cap, s, depth, i); }
      SatProductPositive(Lengths(kept));
      TuplesCount(whole);
      ProductPositive(Lengths(whole));
      assert forall i :: 0 <= i < |s.holes| ==> (Lengths(kept)[i] > 0 <==> Lengths(whole)[i] > 0);
    }
  }

  ghost predicate Unfilled(lib: seq<Snippet>, s: Snippet, depth: nat) {
    AllFillings(lib, s, depth) == []
  }

  lemma UnfilledSnoc(lib: seq<Snippet>, cands: seq<Snippet>, depth: nat)
    requires cands != []
    ensures var init := cands[..|cands|-1];
            (forall i :: 0 <= i < |cands| ==> Unfilled(lib, cands[i], depth)) <==>
              (forall i :: 0 <= i < |init| ==> Unfilled(lib, init[i], depth)) && Unfilled(lib, cands[|cands|-1], depth)
  {
    var init := cands[..|cands|-1];
    assert forall i :: 0 <= i < |init| ==> init[i] == cands[i];
  }

  lemma AllOfStep(lib: seq<Snippet>, cands: seq<Snippet>, depth: nat)
    requires cands != []
    ensures AllOf(lib, cands, depth) == [] <==>
              AllOf(lib, cands[..|cands|-1], depth) == [] && Unfilled(lib, cands[|cands|-1], depth)
  {
    var last := cands[|cands|-1];
    assert |Plant(last, AllFillings(lib, last, depth))| == |AllFillings(lib, last, depth)|;
  }

  lemma {:induction false} AllOfEmpty(lib: seq<Snippet>, cands: seq<Snippet>, depth: nat)
    ensures AllOf(lib, cands, depth) == [] <==> forall i :: 0 <= i < |cands| ==> Unfilled(lib, cands[i], depth)
  {
    if cands != [] {
      AllOfEmpty(lib, cands[..|cands|-1], depth);
      AllOfStep(lib, cands, depth);
      UnfilledSnoc(lib, cands, depth);
    }
  }

  lemma {:induction false} SumIsZero(s: seq<int>)
    requires NonNegative(s)
    ensures Sum(s) >= 0
    ensures Sum(s) == 0 <==> forall i :: 0 <= i < |s| ==> s[i] == 0
  {
    if s != [] { SumIsZero(s[..|s|-1]); }
  }

  /** The kept list is empty exactly when there is no well-typed tree to keep. */
  lemma {:induction false} EmptyTogether(lib: seq<Snippet>, cap: nat, ty: string, depth: nat)
    requires 0 < cap <= KEEP_CAP
    ensures Capped(lib, cap, ty, depth) == [] <==> All(lib, ty, depth) == []
    decreases depth, 1
  {
    var cands := ByType(lib, ty);
    var offers := Offers(lib, cap, cands, depth);
    forall i | 0 <= i < |cands| ensures offers[i] > 0 <==> AllFillings(lib, cands[i], depth) != [] {
      OfferIsPositive(lib, cap, cands[i], depth);
    }
    CappedSize(lib, cap, ty, depth);
    SumIsZero(offers);
    AllOfEmpty(lib, cands, depth);
  }

  // ---- no snippet is starved ----

  ghost predicate RootsSome(lib: seq<Snippet>, ty: string, depth: nat, s: Snippet) {
    exists t: Tree :: t.snip == s && Stitchable(lib, ty, depth, t)
  }

  /** The snippets that root any well-typed tree of the type and height. */
  ghost function Rooting(lib: seq<Snippet>, ty: string, depth: nat): set<Snippet> {
    set s | s in lib && RootsSome(lib, ty, depth, s)
  }

  ghost predicate KeepsRoot(lib: seq<Snippet>, cap: nat, ty: string, depth: nat, s: Snippet) {
    exists t: Tree :: t.snip == s && t in Capped(lib, cap, ty, depth)
  }

  lemma RootingMeansOffering(lib: seq<Snippet>, cap: nat, ty: string, depth: nat, i: nat)
    requires 0 < cap <= KEEP_CAP && Distinct(lib) && i < |ByType(lib, ty)|
    ensures ByType(lib, ty)[i] in Rooting(lib, ty, depth) <==> Offer(lib, cap, ByType(lib, ty)[i], depth) > 0
  {
    var s := ByType(lib, ty)[i];
    assert s in ByType(lib, ty);
    OfferIsPositive(lib, cap, s, depth);
    if Offer(lib, cap, s, depth) > 0 {
      var t := Tree(s, AllFillings(lib, s, depth)[0]);
      AllFillingsExact(lib, s, depth, t.kids);
      StitchableKids(lib, ty, depth, t);
      assert RootsSome(lib, ty, depth, s);
    }
    if RootsSome(lib, ty, depth, s) {
      var t: Tree :| t.snip == s && Stitchable(lib, ty, depth, t);
      AllFillingsExact(lib, s, depth, t.kids);
      StitchableKids(lib, ty, depth, t);
    }
  }

  lemma KeepingMeansQuota(lib: seq<Snippet>, cap: nat, ty: string, depth: nat, i: nat)
    requires Distinct(lib) && i < |ByType(lib, ty)|
    ensures KeepsRoot(lib, cap, ty, depth, ByType(lib, ty)[i]) <==> Quotas(lib, cap, ByType(lib, ty), depth)[i] > 0
  {
    var cands := ByType(lib, ty);
    var s, q := cands[i], Quotas(lib, cap, cands, depth)[i];
    var fillings := Fillings(lib, cap, s, depth);
    FairShareIsFair(Offers(lib, cap, cands, depth), cap);
    OfferIsCovered(lib, cap, s, depth);
    if q > 0 {
      assert fillings[0] == Prefix(fillings, q)[0];
      KeptIsPrefix(lib, cap, ty, depth, i, fillings[0]);
      assert Tree(s, fillings[0]).snip == s;
    }
    if KeepsRoot(lib, cap, ty, depth, s) {
      var t: Tree :| t.snip == s && t in Capped(lib, cap, ty, depth);
      KeptIsPrefix(lib, cap, ty, depth, i, t.kids);
      assert t == Tree(s, t.kids);
    }
  }

  lemma {:induction false} CountIsCardinality(cands: seq<Snippet>, offers: seq<int>, k: nat)
    requires |cands| == |offers| && Distinct(cands) && k <= |cands|
    ensures CountAbove(offers[..k], 0) == |set i | 0 <= i < k && offers[i] > 0 :: cands[i]|
  {
    if k > 0 {
      CountIsCardinality(cands, offers, k - 1);
      PrefixStep(offers, k - 1);
      var before := set i | 0 <= i < k - 1 && offers[i] > 0 :: cands[i];
      var after := set i | 0 <= i < k && offers[i] > 0 :: cands[i];
      assert cands[k-1] !in before;
      assert after == before + if offers[k-1] > 0 then {cands[k-1]} else {};
    }
  }

  /** The cap loses trees but never a snippet, exactly as long as the type has no more usable
      snippets than the cap has places. */
  lemma EveryRootIsKept(lib: seq<Snippet>, cap: nat, ty: string, depth: nat)
    requires 0 < cap <= KEEP_CAP && Distinct(lib)
    ensures (forall s :: s in Rooting(lib, ty, depth) ==> KeepsRoot(lib, cap, ty, depth, s))
       <==> |Rooting(lib, ty, depth)| <= cap
  {
    var cands := ByType(lib, ty);
    var offers, quota := Offers(lib, cap, cands, depth), Quotas(lib, cap, cands, depth);
    ByTypeDistinct(lib, ty);
    forall i | 0 <= i < |cands|
      ensures cands[i] in Rooting(lib, ty, depth) <==> offers[i] > 0
      ensures KeepsRoot(lib, cap, ty, depth, cands[i]) <==> quota[i] > 0
    {
      RootingMeansOffering(lib, cap, ty, depth, i);
      KeepingMeansQuota(lib, cap, ty, depth, i);
    }
    RootingIsOffering(lib, ty, depth, offers);
    CountIsCardinality(cands, offers, |cands|);
    assert offers[..|cands|] == offers;
    NobodyStarves(offers, cap);
    forall s | s in Rooting(lib, ty, depth) ensures s in cands {
      RootsHaveType(lib, ty, depth, s);
    }
    if |Rooting(lib, ty, depth)| <= cap {
      forall s | s in Rooting(lib, ty, depth) ensures KeepsRoot(lib, cap, ty, depth, s) {
        var i :| 0 <= i < |cands| && cands[i] == s;
      }
    } else {
      var i :| 0 <= i < |cands| && offers[i] > 0 && quota[i] <= 0;
      assert cands[i] in Rooting(lib, ty, depth) && !KeepsRoot(lib, cap, ty, depth, cands[i]);
    }
  }

  lemma RootsHaveType(lib: seq<Snippet>, ty: string, depth: nat, s: Snippet)
    requires RootsSome(lib, ty, depth, s)
    ensures s in ByType(lib, ty)
  {
    var t: Tree :| t.snip == s && Stitchable(lib, ty, depth, t);
    StitchableKids(lib, ty, depth, t);
  }

  lemma RootingIsOffering(lib: seq<Snippet>, ty: string, depth: nat, offers: seq<int>)
    requires |offers| == |ByType(lib, ty)|
    requires forall i :: 0 <= i < |offers| ==> (ByType(lib, ty)[i] in Rooting(lib, ty, depth) <==> offers[i] > 0)
    ensures Rooting(lib, ty, depth) == set i | 0 <= i < |offers| && offers[i] > 0 :: ByType(lib, ty)[i]
  {
    var cands := ByType(lib, ty);
    forall s | s in Rooting(lib, ty, depth) ensures s in (set i | 0 <= i < |offers| && offers[i] > 0 :: cands[i]) {
      RootsHaveType(lib, ty, depth, s);
      var i :| 0 <= i < |cands| && cands[i] == s;
    }
  }
}
