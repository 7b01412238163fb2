/** The corpus as a whole: what stitchAll returns, and what it then certifies. */
module Corpus {
  import WaterFilling
  import opened Options
  import opened Saturating
  import opened Sequences
  import opened Snippets
  import opened Enumeration
  import opened Coverage
  import opened Registries
  import opened StitcherLog
  import opened StitcherSteps

  /** With an empty log, a finished answer lists every well-typed tree once and nothing else. */
  lemma EmptyLogAnswer(lib: seq<Snippet>, cap: nat, p: Progress, job: Job)
    requires NoSmallWrap(cap) && Distinct(lib)
    requires Consistent(lib, cap, p) && p.drops == [] && job in p.done
    ensures Distinct(StitcherLog.Kept(lib, cap, job))
    ensures forall t :: t in StitcherLog.Kept(lib, cap, job) <==> Stitchable(lib, job.ty, job.depth, t)
  {
    EmptyLogMeansComplete(lib, cap, p);
    CappedDistinct(lib, cap, job.ty, job.depth);
    forall t ensures t in All(lib, job.ty, job.depth) <==> Stitchable(lib, job.ty, job.depth, t) {
      AllIsExact(lib, job.ty, job.depth, t);
    }
  }

  /** The corpus is the union of the types' lists. */
  lemma {:induction false} CorpusMember(lib: seq<Snippet>, cap: nat, types: seq<string>, depth: nat, t: Tree)
    requires AnswerAll(lib, cap, types, depth).Ok?
    ensures t in AnswerAll(lib, cap, types, depth).value <==>
            exists i :: 0 <= i < |types| && t in Capped(lib, cap, types[i], depth)
  {
    if types != [] {
      var init, last := types[..|types|-1], types[|types|-1];
      CorpusMember(lib, cap, init, depth, t);
      var before := AnswerAll(lib, cap, init, depth).value;
      assert AnswerAll(lib, cap, types, depth).value == before + Capped(lib, cap, last, depth);
      if i :| 0 <= i < |init| && t in Capped(lib, cap, init[i], depth) { assert types[i] == init[i]; }
      if i :| 0 <= i < |types| && t in Capped(lib, cap, types[i], depth) {
        assert i < |init| ==> init[i] == types[i];
      }
    }
  }

  /** No tree is written twice: the lists are distinct, and a tree has one root type. */
  lemma {:induction false} CorpusDistinct(lib: seq<Snippet>, cap: nat, types: seq<string>, depth: nat)
    requires Distinct(lib) && Distinct(types) && AnswerAll(lib, cap, types, depth).Ok?
    ensures Distinct(AnswerAll(lib, cap, types, depth).value)
  {
    if types != [] {
      var n := |types| - 1;
      var before, last := AnswerAll(lib, cap, types[..n], depth).value, Capped(lib, cap, types[n], depth);
      CorpusDistinct(lib, cap, types[..n], depth);
      CappedDistinct(lib, cap, types[n], depth);
      forall t | t in before ensures t !in last {
        CorpusMember(lib, cap, types[..n], depth, t);
        var i :| 0 <= i < n && t in Capped(lib, cap, types[i], depth);
        CappedIsSound(lib, cap, types[i], depth, t);
        if t in last { CappedIsSound(lib, cap, types[n], depth, t); }
      }
      DistinctConcat(before, last);
    }
  }

  /** In the whole corpus, every snippet that can root a tree does root one, provided no type has
      more usable snippets than the cap has places. */
  lemma EverySnippetIsARoot(lib: seq<Snippet>, cap: nat, depth: nat, ty: string, s: Snippet)
    requires 0 < cap <= KEEP_CAP && Distinct(lib)
    requires AnswerAll(lib, cap, TypesOf(lib), depth).Ok?
    requires |Rooting(lib, ty, depth)| <= cap && s in Rooting(lib, ty, depth)
    ensures exists t: Tree :: t.snip == s && t in AnswerAll(lib, cap, TypesOf(lib), depth).value
  {
    EveryRootIsKept(lib, cap, ty, depth);
    assert KeepsRoot(lib, cap, ty, depth, s);
    var t: Tree :| t.snip == s && t in Capped(lib, cap, ty, depth);
    RootsHaveType(lib, ty, depth, s);
    TypesAreProduced(lib);
    assert Produces(lib, ty) by { assert s in ByType(lib, ty); }
    var i :| 0 <= i < |TypesOf(lib)| && TypesOf(lib)[i] == ty;
    CorpusMember(lib, cap, TypesOf(lib), depth, t);
  }

  /** The figure in the log: what was enumerable from the lists kept one level down, saturated. */
  lemma EnumerableIsCount(lib: seq<Snippet>, cap: nat, job: Job)
    requires cap <= EXACT_CAP
    ensures Enumerable(lib, cap, job) ==
            if FillingCount(lib, cap, ByType(lib, job.ty), job.depth) <= SAT
            then FillingCount(lib, cap, ByType(lib, job.ty), job.depth) else SAT
  {
    OffersSum(lib, cap, ByType(lib, job.ty), job.depth);
  }

  /** How many trees the candidates root over the kept lists. */
  function FillingCount(lib: seq<Snippet>, cap: nat, cands: seq<Snippet>, depth: nat): nat {
    if cands == [] then 0
    else
      var n := |cands| - 1;
      FillingCount(lib, cap, cands[..n], depth) + |Fillings(lib, cap, cands[n], depth)|
  }

  lemma {:induction false} OffersSum(lib: seq<Snippet>, cap: nat, cands: seq<Snippet>, depth: nat)
    requires cap <= EXACT_CAP
    ensures var s, f := WaterFilling.Sum(Offers(lib, cap, cands, depth)), FillingCount(lib, cap, cands, depth);
            0 <= s <= f && (f <= SAT ==> s == f) && (f > SAT ==> s >= SAT)
  {
    if cands != [] {
      var n := |cands| - 1;
      OffersSum(lib, cap, cands[..n], depth);
      OfferIsExact(lib, cap, cands[n], depth);
      OffersSnoc(lib, cap, cands[..n], depth, cands[n]);
      var front, here := Offers(lib, cap, cands[..n], depth), Offer(lib, cap, cands[n], depth);
      assert cands[..n] + [cands[n]] == cands;
      assert (front + [here])[..n] == front;
    }
  }
}
