/** Up to which cap the enumerator's other promises hold, exactly. */
module CapLimits {
  import WaterFilling
  import opened JavaInts
  import opened Options
  import opened Saturating
  import opened Sequences
  import opened Snippets
  import opened Enumeration
  import opened Coverage
  import opened Demand
  import opened Registries
  import opened StitcherLog
  import opened LeafLibraries
  import opened SilentLoss
  import opened Corpus

  // ---- nothing vanishes, and no snippet starves ----

  /** With this cap a kept list is empty only when there is no tree to keep. */
  ghost predicate NothingVanishes(cap: nat) {
    forall lib: seq<Snippet>, ty: string, depth: nat ::
      Registrable(lib) ==> (Capped(lib, cap, ty, depth) == [] <==> All(lib, ty, depth) == [])
  }

  ghost predicate KeepsAllRoots(lib: seq<Snippet>, cap: nat, ty: string, depth: nat) {
    forall s :: s in Rooting(lib, ty, depth) ==> KeepsRoot(lib, cap, ty, depth, s)
  }

  /** With this cap a snippet is starved only when its type has more usable snippets than the cap. */
  ghost predicate NobodyIsStarved(cap: nat) {
    forall lib: seq<Snippet>, ty: string, depth: nat ::
      Registrable(lib) ==> (KeepsAllRoots(lib, cap, ty, depth) <==> |Rooting(lib, ty, depth)| <= cap)
  }

  /** From a cap of 32768 on a whole type can vanish, and its one snippet with it, and nothing is logged:
      2^64 trees are counted as none. */
  lemma TypeCanVanish(cap: nat)
    requires cap > KEEP_CAP
    ensures var lib := Library(VANISHING);
            && Registrable(lib) && Missing(lib, "r", 1) == None
            && (forall p :: Consistent(lib, cap, p) ==> p.drops == [])
            && Capped(lib, cap, "r", 1) == [] && |All(lib, "r", 1)| == TWO_64
            && Rooting(lib, "r", 1) == {Root(VANISHING)}
            && !KeepsRoot(lib, cap, "r", 1, Root(VANISHING))
  {
    VanishingWraps();
    LibraryIsRegistrable(VANISHING);
    RootIsSupplied(VANISHING);
    assert Within(VANISHING, cap);
    RootType(VANISHING, cap, 1);
    forall p | Consistent(Library(VANISHING), cap, p) ensures p.drops == [] { LogStaysEmpty(VANISHING, cap, p); }
    OnlyRoot(VANISHING);
  }

  /** The root type has one usable snippet, if there is a tree at all. */
  lemma OnlyRoot(lens: seq<nat>)
    requires All(Library(lens), "r", 1) != []
    ensures Rooting(Library(lens), "r", 1) == {Root(lens)}
  {
    RootBucket(lens);
    OneRoot(Library(lens), "r", 1, Root(lens));
  }

  lemma OneRoot(lib: seq<Snippet>, ty: string, depth: nat, root: Snippet)
    requires ByType(lib, ty) == [root] && All(lib, ty, depth) != []
    ensures Rooting(lib, ty, depth) == {root}
  {
    var t := All(lib, ty, depth)[0];
    AllIsExact(lib, ty, depth, t);
    assert RootsSome(lib, ty, depth, t.snip);
    RootsHaveType(lib, ty, depth, t.snip);
    ByTypeMembers(lib, ty);
    assert t.snip == root;
    forall s | s in Rooting(lib, ty, depth) ensures s == root { RootsHaveType(lib, ty, depth, s); }
  }

  lemma NothingVanishesIff(cap: nat)
    requires cap > 0
    ensures NothingVanishes(cap) <==> cap <= KEEP_CAP
  {
    if cap <= KEEP_CAP {
      forall lib: seq<Snippet>, ty: string, depth: nat | Registrable(lib)
        ensures Capped(lib, cap, ty, depth) == [] <==> All(lib, ty, depth) == []
      {
        EmptyTogether(lib, cap, ty, depth);
      }
    } else {
      TypeCanVanish(cap);
      var lib := Library(VANISHING);
      assert !(Capped(lib, cap, "r", 1) == [] <==> All(lib, "r", 1) == []);
    }
  }

  /** No snippet is starved while its type's usable snippets fit the cap, and this for every registry, if
      and only if the cap is at most 32767. */
  lemma NobodyIsStarvedIff(cap: nat)
    requires cap > 0
    ensures NobodyIsStarved(cap) <==> cap <= KEEP_CAP
  {
    if cap <= KEEP_CAP {
      forall lib: seq<Snippet>, ty: string, depth: nat | Registrable(lib)
        ensures KeepsAllRoots(lib, cap, ty, depth) <==> |Rooting(lib, ty, depth)| <= cap
      {
        UniqueIdsDistinct(lib);
        EveryRootIsKept(lib, cap, ty, depth);
      }
    } else {
      TypeCanVanish(cap);
      var lib := Library(VANISHING);
      assert Root(VANISHING) in Rooting(lib, "r", 1);
      assert !KeepsAllRoots(lib, cap, "r", 1) && |Rooting(lib, "r", 1)| == 1;
    }
  }

  // ---- the figure in the log ----

  /** With this cap the log's `enumerable` is the number of trees over the lists kept one level down. */
  ghost predicate FiguresAreTrue(cap: nat) {
    forall lib: seq<Snippet>, job: Job :: Registrable(lib) ==>
      Enumerable(lib, cap, job) == Min(FillingCount(lib, cap, ByType(lib, job.ty), job.depth), SAT)
  }

  lemma FiguresAreTrueIff(cap: nat)
    ensures FiguresAreTrue(cap) <==> cap <= EXACT_CAP
  {
    if cap <= EXACT_CAP {
      forall lib: seq<Snippet>, job: Job | Registrable(lib)
        ensures Enumerable(lib, cap, job) == Min(FillingCount(lib, cap, ByType(lib, job.ty), job.depth), SAT)
      {
        EnumerableIsCount(lib, cap, job);
      }
    } else {
      WrongFigure(cap);
    }
  }

  lemma WrongFigure(cap: nat)
    requires cap > EXACT_CAP
    ensures !FiguresAreTrue(cap)
  {
    SatProductWraps();
    var lib, job := Library(WRAPPING), Job("r", 1);
    assert Within(WRAPPING, cap);
    LibraryIsRegistrable(WRAPPING);
    RootBucket(WRAPPING);
    OneCandidate(lib, cap, "r", Root(WRAPPING), 1);
    RootCounts(WRAPPING, cap, 1);
    OneCount(lib, cap, Root(WRAPPING), 1);
    assert Enumerable(lib, cap, job) != Min(FillingCount(lib, cap, ByType(lib, job.ty), job.depth), SAT);
  }

  lemma OneCount(lib: seq<Snippet>, cap: nat, root: Snippet, depth: nat)
    ensures FillingCount(lib, cap, [root], depth) == |Fillings(lib, cap, root, depth)|
  {
    assert [root][..0] == [];
  }
}
