/** What the drop log says, entry by entry, and where a kept tree stands in the lists. */
module LogEntries {
  import opened JavaInts
  import opened Options
  import opened Saturating
  import opened Sequences
  import opened Snippets
  import opened WaterFilling
  import opened Enumeration
  import opened StitcherLog
  import opened StitcherSteps

  // ---- the figures of an entry ----

  /** Of what was enumerable, what was kept and what was lost make up the whole; the cap was reached; the
      figure is marked saturated exactly when it is the largest there is. */
  lemma EntryMeans(lib: seq<Snippet>, cap: nat, p: Progress, i: nat)
    requires Consistent(lib, cap, p) && i < |p.drops|
    ensures var c := p.drops[i];
            && c.job in p.done && c.cap == cap
            && c.enumerable == Enumerable(lib, cap, c.job)
            && c.kept == |Capped(lib, cap, c.job.ty, c.job.depth)| == cap
            && c.lost + c.kept == c.enumerable
            && (c.saturated <==> c.enumerable == 1_000_000_000_000_000)
  {
    var c := p.drops[i];
    assert TrueEntry(lib, cap, p.done, c);
    CutMeansOverBudget(lib, cap, c.job.ty, c.job.depth);
    CappedSize(lib, cap, c.job.ty, c.job.depth);
  }

  /** Candidate `j` lost something, and `d` says what it kept of what it offered. */
  ghost predicate IsDetail(cands: seq<Snippet>, quota: seq<int>, offers: seq<int>, j: int, d: Detail)
    requires |cands| == |quota| == |offers|
  {
    0 <= j < |cands| && quota[j] < offers[j] && d.id == cands[j].id && d.kept == quota[j] && d.offered == offers[j]
  }

  lemma {:induction false} DetailIs(cands: seq<Snippet>, quota: seq<int>, offers: seq<int>, d: Detail)
    requires |cands| == |quota| == |offers|
    ensures d in Details(cands, quota, offers) <==> exists j :: IsDetail(cands, quota, offers, j, d)
  {
    if cands != [] {
      var n := |cands| - 1;
      DetailIs(cands[..n], quota[..n], offers[..n], d);
      forall j | j != n
        ensures IsDetail(cands, quota, offers, j, d) <==> IsDetail(cands[..n], quota[..n], offers[..n], j, d)
      {
      }
      assert !IsDetail(cands[..n], quota[..n], offers[..n], n, d);
      assert d in Details(cands, quota, offers) <==>
               d in Details(cands[..n], quota[..n], offers[..n]) || IsDetail(cands, quota, offers, n, d) by {
        LastDetail(cands, quota, offers, d);
      }
    }
  }

  lemma LastDetail(cands: seq<Snippet>, quota: seq<int>, offers: seq<int>, d: Detail)
    requires |cands| == |quota| == |offers| > 0
    ensures var n := |cands| - 1;
            d in Details(cands, quota, offers) <==>
              d in Details(cands[..n], quota[..n], offers[..n]) || IsDetail(cands, quota, offers, n, d)
  {
  }

  /** The details under an entry are those of its candidates: what each that lost something kept of what it
      offered. */
  lemma EntryDetails(lib: seq<Snippet>, cap: nat, p: Progress, i: nat)
    requires Consistent(lib, cap, p) && i < |p.drops|
    ensures var job := p.drops[i].job;
            var cands := ByType(lib, job.ty);
            var quota, offers := Quotas(lib, cap, cands, job.depth), Offers(lib, cap, cands, job.depth);
            p.drops[i].details == Details(cands, quota, offers)
  {
    assert TrueEntry(lib, cap, p.done, p.drops[i]);
  }

  // ---- the counters ----

  function JobsOf(drops: seq<Cut>): (jobs: seq<Job>)
    ensures |jobs| == |drops| && forall i :: 0 <= i < |drops| ==> jobs[i] == drops[i].job
  {
    seq(|drops|, i requires 0 <= i < |drops| => drops[i].job)
  }

  /** What the cap cost over some enumerations: enumerable minus kept. */
  function LostOver(lib: seq<Snippet>, cap: nat, jobs: seq<Job>): int {
    if jobs == [] then 0
    else
      var job := jobs[|jobs|-1];
      LostOver(lib, cap, jobs[..|jobs|-1]) + (Enumerable(lib, cap, job) - |Capped(lib, cap, job.ty, job.depth)|)
  }

  lemma {:induction false} LostIs(lib: seq<Snippet>, cap: nat, done: set<Job>, drops: seq<Cut>)
    requires forall i :: 0 <= i < |drops| ==> TrueEntry(lib, cap, done, drops[i])
    ensures TotalLost(drops) == LostOver(lib, cap, JobsOf(drops))
  {
    if drops != [] {
      LostIs(lib, cap, done, drops[..|drops|-1]);
      assert JobsOf(drops)[..|drops|-1] == JobsOf(drops[..|drops|-1]);
      assert TrueEntry(lib, cap, done, drops[|drops|-1]);
    }
  }

  /** The counters are the sums, on their machine widths, over the truncated enumerations, each once. */
  lemma CountersMean(lib: seq<Snippet>, cap: nat, p: Progress)
    requires Consistent(lib, cap, p)
    ensures var jobs := JobsOf(p.drops);
            && Distinct(jobs)
            && (forall job :: job in jobs <==> job in p.done && JobIsCut(lib, cap, job))
            && p.dropped == Wrap64(LostOver(lib, cap, jobs)) && p.cuts == Wrap32(|jobs|)
  {
    var jobs := JobsOf(p.drops);
    LostIs(lib, cap, p.done, p.drops);
    forall job ensures job in jobs <==> job in p.done && JobIsCut(lib, cap, job) {
      if job in jobs {
        var i :| 0 <= i < |jobs| && jobs[i] == job;
        assert TrueEntry(lib, cap, p.done, p.drops[i]);
      }
      if job in p.done && JobIsCut(lib, cap, job) {
        assert Logged(p.drops, job);
        var i :| 0 <= i < |p.drops| && p.drops[i].job == job;
        assert jobs[i] == job;
      }
    }
  }

  // ---- where a tree stands ----

  /** What one snippet contributes: the first of its fillings, in their order. */
  function Contribution(lib: seq<Snippet>, cap: nat, s: Snippet, depth: nat, quota: int): (ts: seq<Tree>)
    requires 0 <= quota <= |Fillings(lib, cap, s, depth)|
    ensures |ts| == quota && forall x :: 0 <= x < quota ==> ts[x] == Tree(s, Fillings(lib, cap, s, depth)[x])
  {
    seq(quota, x requires 0 <= x < quota => Tree(s, Fillings(lib, cap, s, depth)[x]))
  }

  ghost predicate Covered(lib: seq<Snippet>, cap: nat, cands: seq<Snippet>, depth: nat, quota: seq<int>) {
    |quota| == |cands| && forall k :: 0 <= k < |cands| ==> 0 <= quota[k] <= |Fillings(lib, cap, cands[k], depth)|
  }

  function Contributions(lib: seq<Snippet>, cap: nat, cands: seq<Snippet>, depth: nat, quota: seq<int>)
    : (lists: seq<seq<Tree>>)
    requires Covered(lib, cap, cands, depth, quota)
    ensures |lists| == |cands|
  {
    seq(|cands|, k requires 0 <= k < |cands| => Contribution(lib, cap, cands[k], depth, quota[k]))
  }

  lemma {:induction false} HarvestIsFlat(lib: seq<Snippet>, cap: nat, cands: seq<Snippet>, depth: nat, quota: seq<int>)
    requires Covered(lib, cap, cands, depth, quota)
    ensures Harvest(lib, cap, cands, depth, quota) == Flat(Contributions(lib, cap, cands, depth, quota))
  {
    if cands != [] {
      var n := |cands| - 1;
      HarvestIsFlat(lib, cap, cands[..n], depth, quota[..n]);
      var lists := Contributions(lib, cap, cands, depth, quota);
      assert lists[..n] == Contributions(lib, cap, cands[..n], depth, quota[..n]);
      KeptIsContribution(lib, cap, cands[n], depth, quota[n]);
    }
  }

  lemma KeptIsContribution(lib: seq<Snippet>, cap: nat, s: Snippet, depth: nat, quota: int)
    requires 0 <= quota <= |Fillings(lib, cap, s, depth)|
    ensures Enumeration.Kept(lib, cap, s, depth, quota) == Contribution(lib, cap, s, depth, quota)
  {
  }

  lemma QuotasAreCovered(lib: seq<Snippet>, cap: nat, cands: seq<Snippet>, depth: nat)
    ensures Covered(lib, cap, cands, depth, Quotas(lib, cap, cands, depth))
  {
    var offers := Offers(lib, cap, cands, depth);
    FairShareIsFair(offers, cap);
    forall k | 0 <= k < |cands|
      ensures 0 <= Quotas(lib, cap, cands, depth)[k] <= |Fillings(lib, cap, cands[k], depth)|
    {
      assert offers[k] == Offer(lib, cap, cands[k], depth);
      OfferIsCovered(lib, cap, cands[k], depth);
    }
  }

  /** The trees are kept snippet by snippet in registration order, and each snippet's in the order of its
      fillings. */
  lemma KeptInOrder(lib: seq<Snippet>, cap: nat, ty: string, depth: nat)
    ensures var cands := ByType(lib, ty);
            var quota := Quotas(lib, cap, cands, depth);
            && Covered(lib, cap, cands, depth, quota)
            && Capped(lib, cap, ty, depth) == Flat(Contributions(lib, cap, cands, depth, quota))
  {
    var cands := ByType(lib, ty);
    QuotasAreCovered(lib, cap, cands, depth);
    HarvestIsFlat(lib, cap, cands, depth, Quotas(lib, cap, cands, depth));
  }

  /** The corpus goes type by type in the given order, each type's list as it is kept. */
  lemma {:induction false} CorpusInOrder(lib: seq<Snippet>, cap: nat, types: seq<string>, depth: nat)
    requires AnswerAll(lib, cap, types, depth).Ok?
    ensures AnswerAll(lib, cap, types, depth).value ==
            Flat(seq(|types|, k requires 0 <= k < |types| => Capped(lib, cap, types[k], depth)))
  {
    if types != [] {
      var n := |types| - 1;
      CorpusInOrder(lib, cap, types[..n], depth);
      var lists := seq(|types|, k requires 0 <= k < |types| => Capped(lib, cap, types[k], depth));
      assert lists[..n] == seq(n, k requires 0 <= k < n => Capped(lib, cap, types[..n][k], depth));
    }
  }
}
