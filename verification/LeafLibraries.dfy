/** Small registries made to measure: some types of leaves, and one snippet with a hole of each. What
    the enumerator does with one depends on nothing but the numbers of leaves. */
module LeafLibraries {
  import opened Options
  import opened Saturating
  import opened Odometer
  import opened Sequences
  import opened Snippets
  import opened Rules
  import opened WaterFilling
  import opened Enumeration
  import opened Demand
  import opened Registries

  // ---- the registry ----

  function TypeName(i: nat): string {
    seq(i + 1, _ => 'a')
  }

  function LeafOf(i: nat, j: nat): Snippet {
    Snippet(TypeName(i) + seq(j, _ => '+'), ["3.10.1"], TypeName(i), [], Leaf(IntLit(0)))
  }

  function Leaves(i: nat, n: nat): (leaves: seq<Snippet>)
    ensures |leaves| == n
  {
    seq(n, j requires 0 <= j < n => LeafOf(i, j))
  }

  function Root(lens: seq<nat>): (root: Snippet)
    ensures |root.holes| == |lens| && forall i :: 0 <= i < |lens| ==> root.holes[i] == TypeName(i)
  {
    Snippet("r", ["15.8"], "r", seq(|lens|, i requires 0 <= i < |lens| => TypeName(i)), Leaf(IntLit(0)))
  }

  function LeavesBelow(lens: seq<nat>, k: nat): seq<Snippet>
    requires k <= |lens|
  {
    if k == 0 then [] else LeavesBelow(lens, k - 1) + Leaves(k - 1, lens[k-1])
  }

  function Library(lens: seq<nat>): seq<Snippet> {
    LeavesBelow(lens, |lens|) + [Root(lens)]
  }

  lemma NamesDiffer(i: nat, k: nat)
    ensures TypeName(i) == TypeName(k) <==> i == k
    ensures TypeName(i) != "r" && TypeName(i) != REJECT && TypeName(i) != "void" && TypeName(i) != ""
  {
    assert |TypeName(i)| == i + 1 && |TypeName(k)| == k + 1;
    assert TypeName(i)[0] == 'a';
  }

  // ---- its buckets ----

  lemma LeavesSnoc(i: nat, n: nat)
    ensures Leaves(i, n + 1) == Leaves(i, n) + [LeafOf(i, n)]
  {
  }

  lemma ByTypeSnoc(lib: seq<Snippet>, last: Snippet, want: string)
    ensures ByType(lib + [last], want) ==
            if last.ty == want && want != REJECT then ByType(lib, want) + [last] else ByType(lib, want)
  {
    assert (lib + [last])[..|lib|] == lib;
  }

  predicate Named(want: string, i: nat) {
    want == TypeName(i)
  }

  lemma {:induction false} LeavesByType(i: nat, n: nat, want: string)
    ensures ByType(Leaves(i, n), want) == if Named(want, i) then Leaves(i, n) else []
  {
    if n > 0 {
      LeavesByType(i, n - 1, want);
      LeavesSnoc(i, n - 1);
      ByTypeSnoc(Leaves(i, n - 1), LeafOf(i, n - 1), want);
      NamesDiffer(i, i);
    }
  }

  lemma LeavesBelowSkip(lens: seq<nat>, k: nat, want: string)
    requires 0 < k <= |lens| && !Named(want, k - 1)
    ensures ByType(LeavesBelow(lens, k), want) == ByType(LeavesBelow(lens, k - 1), want)
  {
    ByTypeConcat(LeavesBelow(lens, k - 1), Leaves(k - 1, lens[k-1]), want);
    LeavesByType(k - 1, lens[k-1], want);
  }

  lemma LeavesBelowTake(lens: seq<nat>, k: nat)
    requires 0 < k <= |lens|
    ensures ByType(LeavesBelow(lens, k), TypeName(k - 1)) ==
            ByType(LeavesBelow(lens, k - 1), TypeName(k - 1)) + Leaves(k - 1, lens[k-1])
  {
    ByTypeConcat(LeavesBelow(lens, k - 1), Leaves(k - 1, lens[k-1]), TypeName(k - 1));
    LeavesByType(k - 1, lens[k-1], TypeName(k - 1));
  }

  lemma {:induction false} LeavesBelowOther(lens: seq<nat>, k: nat, want: string)
    requires k <= |lens| && forall i :: 0 <= i < k ==> !Named(want, i)
    ensures ByType(LeavesBelow(lens, k), want) == []
  {
    if k > 0 {
      LeavesBelowOther(lens, k - 1, want);
      LeavesBelowSkip(lens, k, want);
    }
  }

  lemma {:induction false} LeavesBelowOf(lens: seq<nat>, k: nat, i: nat)
    requires i < k <= |lens|
    ensures ByType(LeavesBelow(lens, k), TypeName(i)) == Leaves(i, lens[i])
  {
    if i < k - 1 {
      LeavesBelowOf(lens, k - 1, i);
      NamesDiffer(i, k - 1);
      LeavesBelowSkip(lens, k, TypeName(i));
    } else {
      forall j | 0 <= j < i ensures !Named(TypeName(i), j) { NamesDiffer(i, j); }
      LeavesBelowOther(lens, i, TypeName(i));
      LeavesBelowTake(lens, k);
    }
  }

  /** Each type has its leaves ... */
  lemma LeafBucket(lens: seq<nat>, i: nat)
    requires i < |lens|
    ensures ByType(Library(lens), TypeName(i)) == Leaves(i, lens[i])
  {
    LeavesBelowOf(lens, |lens|, i);
    ByTypeSnoc(LeavesBelow(lens, |lens|), Root(lens), TypeName(i));
    NamesDiffer(i, i);
  }

  /** ... the root type its one snippet ... */
  lemma RootBucket(lens: seq<nat>)
    ensures ByType(Library(lens), "r") == [Root(lens)]
  {
    forall i | 0 <= i < |lens| ensures !Named("r", i) { NamesDiffer(i, i); }
    LeavesBelowOther(lens, |lens|, "r");
    ByTypeSnoc(LeavesBelow(lens, |lens|), Root(lens), "r");
    assert |"r"| != |REJECT|;
  }

  /** ... and there is no other type. */
  lemma OtherBucket(lens: seq<nat>, want: string)
    requires want != "r" && forall i :: 0 <= i < |lens| ==> !Named(want, i)
    ensures ByType(Library(lens), want) == []
  {
    LeavesBelowOther(lens, |lens|, want);
    ByTypeSnoc(LeavesBelow(lens, |lens|), Root(lens), want);
  }

  // ---- it can be registered ----

  /** What a registry holds after any run of successful registrations. */
  ghost predicate Registrable(lib: seq<Snippet>) {
    && UniqueIds(lib)
    && forall s :: s in lib ==> WellFormed(s) && (s.ty == REJECT ==> s.holes == [])
  }

  lemma IdsDiffer(i: nat, j: nat, k: nat, l: nat)
    requires i < k
    ensures LeafOf(i, j).id != LeafOf(k, l).id
  {
    var a, b := LeafOf(i, j).id, LeafOf(k, l).id;
    assert |a| == i + 1 + j && |b| == k + 1 + l;
    assert b[i+1] == 'a';
    assert j > 0 ==> a[i+1] == '+';
  }

  lemma {:induction false} LeafAt(lens: seq<nat>, k: nat, x: nat) returns (i: nat, j: nat)
    requires k <= |lens| && x < |LeavesBelow(lens, k)|
    ensures i < k && LeavesBelow(lens, k)[x] == LeafOf(i, j)
  {
    var front := LeavesBelow(lens, k - 1);
    if x < |front| { i, j := LeafAt(lens, k - 1, x); } else { i, j := k - 1, x - |front|; }
  }

  lemma {:induction false} LeavesBelowUnique(lens: seq<nat>, k: nat)
    requires k <= |lens|
    ensures UniqueIds(LeavesBelow(lens, k))
  {
    if k > 0 {
      LeavesBelowUnique(lens, k - 1);
      var front: seq<Snippet>, back: seq<Snippet> := LeavesBelow(lens, k - 1), Leaves(k - 1, lens[k-1]);
      var both: seq<Snippet> := front + back;
      forall x, y | 0 <= x < y < |both| ensures both[x].id != both[y].id {
        if x < |front| <= y {
          var i, j := LeafAt(lens, k - 1, x);
          IdsDiffer(i, j, k - 1, y - |front|);
        } else if x >= |front| {
          LengthsDiffer(k - 1, x - |front|, y - |front|);
        }
      }
    }
  }

  lemma LengthsDiffer(i: nat, j: nat, l: nat)
    requires j < l
    ensures LeafOf(i, j).id != LeafOf(i, l).id
  {
    assert |LeafOf(i, j).id| == i + 1 + j && |LeafOf(i, l).id| == i + 1 + l;
  }

  lemma LeafIsWellFormed(i: nat, j: nat)
    ensures WellFormed(LeafOf(i, j)) && LeafOf(i, j).ty != REJECT && LeafOf(i, j).id != "r"
  {
    NamesDiffer(i, i);
    assert LeafOf(i, j).id[0] == 'a';
  }

  lemma RootIsWellFormed(lens: seq<nat>)
    ensures WellFormed(Root(lens)) && Root(lens).ty != REJECT
  {
    forall h | h in Root(lens).holes ensures UsableHole(h) {
      var i :| 0 <= i < |lens| && Root(lens).holes[i] == h;
      NamesDiffer(i, i);
    }
    assert |REJECT| == 6;
  }

  lemma LibraryIsRegistrable(lens: seq<nat>)
    ensures Registrable(Library(lens))
  {
    var front := LeavesBelow(lens, |lens|);
    LeavesBelowUnique(lens, |lens|);
    RootIsWellFormed(lens);
    forall x | 0 <= x < |front|
      ensures WellFormed(front[x]) && front[x].ty != REJECT && front[x].id != "r"
    {
      var i, j := LeafAt(lens, |lens|, x);
      LeafIsWellFormed(i, j);
    }
  }

  // ---- what is enumerated from it ----

  lemma {:induction false} SumOfOnes(s: seq<int>)
    requires forall i :: 0 <= i < |s| ==> s[i] == 1
    ensures Sum(s) == |s|
  {
    if s != [] { SumOfOnes(s[..|s|-1]); }
  }

  lemma {:induction false} AllOfLeaves(lib: seq<Snippet>, cands: seq<Snippet>, depth: nat)
    requires forall i :: 0 <= i < |cands| ==> cands[i].holes == []
    ensures |AllOf(lib, cands, depth)| == |cands|
  {
    if cands != [] { AllOfLeaves(lib, cands[..|cands|-1], depth); }
  }

  /** A type of leaves, no more than the cap, is enumerated whole at every depth. */
  lemma LeafTypeIsWhole(lens: seq<nat>, cap: nat, i: nat, depth: nat)
    requires i < |lens| && lens[i] <= cap
    ensures |Capped(Library(lens), cap, TypeName(i), depth)| == lens[i] == |All(Library(lens), TypeName(i), depth)|
    ensures !IsCut(Library(lens), cap, TypeName(i), depth)
  {
    LeafBucket(lens, i);
    LeafCandsAreWhole(Library(lens), cap, TypeName(i), Leaves(i, lens[i]), depth);
  }

  lemma LeafCandsAreWhole(lib: seq<Snippet>, cap: nat, ty: string, cands: seq<Snippet>, depth: nat)
    requires ByType(lib, ty) == cands && |cands| <= cap && forall j :: 0 <= j < |cands| ==> cands[j].holes == []
    ensures |Capped(lib, cap, ty, depth)| == |cands| == |All(lib, ty, depth)|
    ensures !IsCut(lib, cap, ty, depth)
  {
    forall j | 0 <= j < |cands| ensures Offers(lib, cap, cands, depth)[j] == 1 { assert cands[j].holes == []; }
    SumOfOnes(Offers(lib, cap, cands, depth));
    CappedSize(lib, cap, ty, depth);
    CutMeansOverBudget(lib, cap, ty, depth);
    AllOfLeaves(lib, cands, depth);
  }

  lemma OneCandidate(lib: seq<Snippet>, cap: nat, ty: string, root: Snippet, depth: nat)
    requires ByType(lib, ty) == [root]
    ensures Sum(Offers(lib, cap, ByType(lib, ty), depth)) == Offer(lib, cap, root, depth)
    ensures |All(lib, ty, depth)| == |AllFillings(lib, root, depth)|
  {
    var one, offers := [root], Offers(lib, cap, [root], depth);
    assert one[..0] == [] && offers[..0] == [];
    assert Sum(offers[..0]) == 0 && AllOf(lib, one[..0], depth) == [];
  }

  /** The root's fillings one level up: the product of the leaf counts, as they are and as counted. */
  lemma RootCounts(lens: seq<nat>, cap: nat, depth: nat)
    requires Within(lens, cap) && lens != [] && depth > 0
    ensures Offer(Library(lens), cap, Root(lens), depth) == SatProduct(lens)
    ensures |AllFillings(Library(lens), Root(lens), depth)| == Product(lens)
    ensures |Fillings(Library(lens), cap, Root(lens), depth)| == Product(lens)
  {
    var lib, root := Library(lens), Root(lens);
    var kept := HoleLists(lib, cap, root, depth);
    var whole := seq(|root.holes|, i requires 0 <= i < |root.holes| => All(lib, root.holes[i], depth - 1));
    forall i | 0 <= i < |lens| ensures |kept[i]| == lens[i] == |whole[i]| { LeafTypeIsWhole(lens, cap, i, depth - 1); }
    assert Lengths(kept) == lens && Lengths(whole) == lens;
    TuplesCount(kept);
    TuplesCount(whole);
  }

  lemma RootType(lens: seq<nat>, cap: nat, depth: nat)
    requires Within(lens, cap) && lens != [] && depth > 0
    ensures |All(Library(lens), "r", depth)| == Product(lens)
    ensures |Capped(Library(lens), cap, "r", depth)| == if SatProduct(lens) <= cap then SatProduct(lens) else cap
    ensures IsCut(Library(lens), cap, "r", depth) <==> SatProduct(lens) > cap
  {
    RootBucket(lens);
    OneCandidate(Library(lens), cap, "r", Root(lens), depth);
    RootCounts(lens, cap, depth);
    CappedSize(Library(lens), cap, "r", depth);
    CutMeansOverBudget(Library(lens), cap, "r", depth);
  }

  /** No type is cut at any depth, if the root's count fits the cap. */
  lemma NothingIsCut(lens: seq<nat>, cap: nat, ty: string, depth: nat)
    requires Within(lens, cap) && lens != [] && SatProduct(lens) <= cap
    ensures !IsCut(Library(lens), cap, ty, depth)
  {
    if i :| 0 <= i < |lens| && Named(ty, i) {
      LeafTypeIsWhole(lens, cap, i, depth);
    } else if ty == "r" {
      if depth > 0 { RootType(lens, cap, depth); } else { RootAtZero(lens, cap); }
    } else {
      OtherBucket(lens, ty);
      EmptyIsUncut(Library(lens), cap, ty, depth);
    }
  }

  lemma EmptyIsUncut(lib: seq<Snippet>, cap: nat, ty: string, depth: nat)
    requires ByType(lib, ty) == []
    ensures !IsCut(lib, cap, ty, depth)
  {
  }

  lemma RootAtZero(lens: seq<nat>, cap: nat)
    requires lens != []
    ensures !IsCut(Library(lens), cap, "r", 0)
  {
    RootBucket(lens);
    OneCandidate(Library(lens), cap, "r", Root(lens), 0);
    CutMeansOverBudget(Library(lens), cap, "r", 0);
  }

  /** Every type the root needs is produced, so an enumeration runs through. */
  lemma RootIsSupplied(lens: seq<nat>)
    requires forall i :: 0 <= i < |lens| ==> lens[i] > 0
    ensures Missing(Library(lens), "r", 1) == None
    ensures forall i :: 0 <= i < |lens| ==> Missing(Library(lens), TypeName(i), 0) == None
  {
    var lib := Library(lens);
    RootBucket(lens);
    forall i | 0 <= i < |lens| ensures Missing(lib, TypeName(i), 0) == None {
      LeafBucket(lens, i);
      NothingMissing(lib, Leaves(i, lens[i]));
    }
    HolesSupplied(lib, Root(lens).holes);
    OneSupplied(lib, Root(lens), 1);
  }

  lemma {:induction false} NothingMissing(lib: seq<Snippet>, cands: seq<Snippet>)
    ensures MissingAmong(lib, cands, 0) == None
  {
    if cands != [] { NothingMissing(lib, cands[..|cands|-1]); }
  }

  lemma {:induction false} HolesSupplied(lib: seq<Snippet>, holes: seq<string>)
    requires forall i :: 0 <= i < |holes| ==> Missing(lib, holes[i], 0) == None
    ensures MissingIn(lib, holes, 1) == None
  {
    if holes != [] { HolesSupplied(lib, holes[..|holes|-1]); }
  }

  lemma OneSupplied(lib: seq<Snippet>, root: Snippet, depth: nat)
    requires MissingIn(lib, root.holes, depth) == None
    ensures MissingAmong(lib, [root], depth) == None
  {
    assert [root][..0] == [];
  }
}
