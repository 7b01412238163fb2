/** The memoised, capped enumerator (Stitcher.java), proved against the memo-free recursion. */
module Stitchers {
  import opened JavaInts
  import opened Options
  import opened Saturating
  import opened Odometer
  import opened Sequences
  import opened Snippets
  import opened WaterFilling
  import opened Enumeration
  import opened Demand
  import opened MemoKeys
  import opened Registries
  import opened StitcherLog
  import opened StitcherSteps

  /** The filled trees of one snippet, first `quota` of them in odometer order. */
  method PlantFillings(s: Snippet, sub: seq<seq<Tree>>, quota: int) returns (ts: seq<Tree>)
    requires 0 <= quota <= |Tuples(sub)|
    ensures ts == Plant(s, Prefix(Tuples(sub), quota))
  {
    ts := [];
    for k := 0 to quota
      invariant ts == Plant(s, Prefix(Tuples(sub), k))
    {
      var kids := Filling(sub, k);
      ts := ts + [Tree(s, kids[..])];
      assert Prefix(Tuples(sub), k + 1) == Prefix(Tuples(sub), k) + [Tuples(sub)[k]];
    }
  }

  lemma HarvestSnoc(lib: seq<Snippet>, cap: nat, cands: seq<Snippet>, depth: nat, quota: seq<int>, i: nat)
    requires |quota| == |cands| && i < |cands|
    ensures Harvest(lib, cap, cands[..i+1], depth, quota[..i+1])
         == Harvest(lib, cap, cands[..i], depth, quota[..i]) + Enumeration.Kept(lib, cap, cands[i], depth, quota[i])
  {
    assert cands[..i+1][..i] == cands[..i] && quota[..i+1][..i] == quota[..i];
  }

  lemma DetailsSnoc(cands: seq<Snippet>, quota: seq<int>, offers: seq<int>, i: nat)
    requires |cands| == |quota| == |offers| && i < |cands|
    ensures Details(cands[..i+1], quota[..i+1], offers[..i+1])
         == Details(cands[..i], quota[..i], offers[..i]) +
            if quota[i] < offers[i] then [Detail(cands[i].id, quota[i], offers[i])] else []
  {
    assert cands[..i+1][..i] == cands[..i] && quota[..i+1][..i] == quota[..i] && offers[..i+1][..i] == offers[..i];
  }

  /** Pass 3: note every cut and materialise what the quotas allow. */
  method Materialise(ghost lib: seq<Snippet>, ghost cap: nat, depth: nat, cands: seq<Snippet>,
                     fills: seq<seq<seq<Tree>>>, offer: array<int>, quota: array<int>)
    returns (out: seq<Tree>, details: seq<Detail>)
    requires |fills| == |cands|
    requires offer[..] == Offers(lib, cap, cands, depth)
    requires quota[..] == Quotas(lib, cap, cands, depth)
    requires forall i :: 0 <= i < |cands| && cands[i].holes != [] && depth > 0 ==>
            fills[i] == HoleLists(lib, cap, cands[i], depth)
    ensures out == Harvest(lib, cap, cands, depth, quota[..])
    ensures details == Details(cands, quota[..], offer[..])
  {
    out, details := [], [];
    FairShareIsFair(offer[..], cap);
    for si := 0 to |cands|
      invariant out == Harvest(lib, cap, cands[..si], depth, quota[..][..si])
      invariant details == Details(cands[..si], quota[..][..si], offer[..][..si])
    {
      var s := cands[si];
      HarvestSnoc(lib, cap, cands, depth, quota[..], si);
      DetailsSnoc(cands, quota[..], offer[..], si);
      assert 0 <= quota[..][si] <= offer[..][si];
      assert offer[si] == Offer(lib, cap, s, depth);
      OfferIsCovered(lib, cap, s, depth);
      if quota[si] < offer[si] {
        details := details + [Detail(s.id, quota[si], offer[si])];
      }
      if quota[si] == 0 {
        continue;
      }
      if s.holes == [] {
        out := out + [Tree(s, [])];
        assert Enumeration.Kept(lib, cap, s, depth, quota[si]) == [Tree(s, [])];
      } else {
        var planted := PlantFillings(s, fills[si], quota[si]);
        out := out + planted;
      }
    }
    WholePrefix(cands);
    WholePrefix(quota[..]);
    WholePrefix(offer[..]);
  }

  method Put(a: array<int>, i: nat, v: int)
    requires i < a.Length
    modifies a
    ensures a[..i+1] == old(a[..i]) + [v]
  {
    a[i] := v;
  }

  class Stitcher {
    const reg: Registry
    const cap: int
    var memo: map<string, seq<Tree>>
    var drops: seq<Cut>
    var dropped: int
    var cuts: int
    ghost var done: set<Job>

    ghost predicate Valid()
      reads this, reg
    {
      && reg.Valid()
      && 0 < cap < TWO_31
      && Consistent(reg.snippets, cap, State())
    }

    ghost function State(): Progress
      reads this
    {
      Progress(memo, drops, dropped, cuts, done)
    }

    /** The source refuses a cap that is not positive. */
    constructor (r: Registry, capPerType: int)
      requires r.Valid() && 0 < capPerType < TWO_31
      ensures Valid() && reg == r && cap == capPerType && done == {} && drops == []
    {
      reg, cap := r, capPerType;
      memo, drops, dropped, cuts, done := map[], [], 0, 0, {};
    }

    /** Whatever was enumerated before, the answer is the memo-free one. */
    method Stitch(ty: string, depth: int) returns (r: Result<seq<Tree>, string>)
      requires Valid() && depth < TWO_31
      modifies this
      ensures Valid() && Grew(old(State()), State(), Max(0, depth) + 1)
      ensures r == Answer(reg.snippets, cap, Job(ty, Max(0, depth)))
      ensures r.Ok? ==> Job(ty, Max(0, depth)) in done
      decreases Max(0, depth), 4
    {
      var d: nat := if depth < 0 then 0 else depth;
      var job := Job(ty, d);
      var key := Key(ty, d);
      MemoLookup(reg.snippets, cap, State(), job);
      GrewNot(State(), d + 1);
      if key in memo { return Ok(memo[key]); }
      var cands := reg.Bucket(ty);
      if cands == [] { return Err(ty); }
      r := Enumerate(job, cands);
    }

    /** The three passes over a type not enumerated at this depth before. */
    method Enumerate(job: Job, cands: seq<Snippet>) returns (r: Result<seq<Tree>, string>)
      requires Valid() && job.depth < TWO_31 && job !in done
      requires cands == ByType(reg.snippets, job.ty) && cands != []
      modifies this
      ensures Valid() && Grew(old(State()), State(), job.depth + 1)
      ensures r == Answer(reg.snippets, cap, job)
      ensures r.Ok? ==> job in done
      decreases job.depth, 3
    {
      var missing, offer, fills, enumerable := Survey(cands, job.depth);
      GrewSteps(old(State()), State(), State(), job.depth, job.depth + 1);
      if missing.Some? { return Err(missing.value); }
      RecordedGrows(reg.snippets, cap, old(State()), State(), job);
      SurveyedIsClosed(reg.snippets, cap, job, Found(offer[..], fills, enumerable), done);
      RecordedIsConsistent(reg.snippets, cap, State(), job);
      var out := Finish(job, cands, offer, fills, enumerable);
      return Ok(out);
    }

    /** Passes 2 and 3, and the accounting. */
    method Finish(job: Job, cands: seq<Snippet>, offer: array<int>, fills: seq<seq<seq<Tree>>>, enumerable: int)
      returns (out: seq<Tree>)
      requires Valid() && cands == ByType(reg.snippets, job.ty)
      requires Surveyed(reg.snippets, cap, cands, job.depth, Found(offer[..], fills, enumerable), done)
      modifies this
      ensures State() == Recorded(reg.snippets, cap, old(State()), job)
      ensures out == StitcherLog.Kept(reg.snippets, cap, job)
    {
      var quota := WaterFill(offer, cap);
      var details;
      out, details := Materialise(reg.snippets, cap, job.depth, cands, fills, offer, quota);
      AdvanceIsRecorded(reg.snippets, cap, State(), job);
      Record(job, enumerable, out, details);
    }

    /** The drop accounting and the memo entry of a finished enumeration. */
    method Record(job: Job, enumerable: int, out: seq<Tree>, details: seq<Detail>)
      modifies this
      ensures State() == Advance(cap, old(State()), job, enumerable, out, details)
    {
      if details != [] {
        var lost := enumerable - |out|;
        cuts := Wrap32(cuts + 1);
        dropped := Wrap64(dropped + lost);
        drops := drops + [Cut(job, cap, enumerable, enumerable >= SAT, |out|, lost, details)];
      }
      memo := memo[Key(job.ty, job.depth) := out];
      done := done + {job};
    }

    /** Pass 1: what does each snippet offer at this depth? */
    method Survey(cands: seq<Snippet>, depth: nat)
      returns (missing: Option<string>, offer: array<int>, fills: seq<seq<seq<Tree>>>, enumerable: int)
      requires Valid() && depth < TWO_31
      modifies this
      ensures Valid() && Grew(old(State()), State(), depth)
      ensures missing == MissingAmong(reg.snippets, cands, depth)
      ensures missing == None ==>
        Surveyed(reg.snippets, cap, cands, depth, Found(offer[..], fills, enumerable), done)
      decreases depth, 2
    {
      offer := new int[|cands|];
      missing, fills, enumerable := None, [], 0;
      ghost var x, lib := Found([], [], 0), reg.snippets;
      for si := 0 to |cands|
        invariant Valid() && Grew(old(State()), State(), depth)
        invariant reg.snippets == lib && Surveyed(lib, cap, cands[..si], depth, x, done)
        invariant x.offers == offer[..si] && x.fills == fills && x.enumerable == enumerable
      {
        var s := cands[si];
        ghost var before := State();
        var m, here, sub := OfferOf(s, depth);
        GrewSteps(old(State()), before, State(), depth, depth);
        if m.Some? {
          MissingAmongStops(lib, cands, depth, si);
          missing := m;
          return;
        }
        SurveyStep(lib, cap, cands[..si], depth, x, before.done, s, here, sub, done);
        x := Add(x, here, sub);
        Put(offer, si, here);
        fills := fills + [sub];
        enumerable := SatSum(enumerable, here);
        Snoc(cands, si);
      }
      WholePrefix(cands);
      WholePrefix(offer[..]);
      assert offer[..][..|cands|] == offer[..|cands|];
    }

    /** One candidate: a leaf offers itself, a snippet with holes needs a level to fill them. */
    method OfferOf(s: Snippet, depth: nat) returns (missing: Option<string>, here: int, sub: seq<seq<Tree>>)
      requires Valid() && depth < TWO_31
      modifies this
      ensures Valid() && Grew(old(State()), State(), depth)
      ensures missing == MissingIn(reg.snippets, s.holes, depth)
      ensures missing == None ==> here == Offer(reg.snippets, cap, s, depth) <= SAT
      ensures missing == None ==> FilledFor(reg.snippets, cap, s, depth, sub, done)
      decreases depth, 1
    {
      GrewNot(State(), depth);
      if s.holes == [] { return None, 1, []; }
      if depth <= 0 { return None, 0, []; }
      missing, sub, here := FillHoles(s.holes, depth);
      GatheredIsOffer(reg.snippets, cap, s, depth, Holes(sub, here), done);
    }

    /** The lists that fill one snippet's holes, and their saturated product. */
    method FillHoles(hs: seq<string>, depth: nat)
      returns (missing: Option<string>, sub: seq<seq<Tree>>, product: int)
      requires Valid() && 0 < depth < TWO_31
      modifies this
      ensures Valid() && Grew(old(State()), State(), depth)
      ensures missing == MissingIn(reg.snippets, hs, depth)
      ensures missing == None ==> Gathered(reg.snippets, cap, hs, depth, Holes(sub, product), done)
      decreases depth, 0
    {
      missing, sub, product := None, [], 1;
      for i := 0 to |hs|
        invariant Valid() && Grew(old(State()), State(), depth)
        invariant Gathered(reg.snippets, cap, hs[..i], depth, Holes(sub, product), done)
      {
        ghost var before := State();
        var f := Stitch(hs[i], depth - 1);
        GrewSteps(old(State()), before, State(), depth, depth);
        if f.Err? {
          MissingInStops(reg.snippets, hs, depth, i);
          missing := Some(f.error);
          return;
        }
        GatherStep(reg.snippets, cap, hs[..i], depth, Holes(sub, product), before.done, hs[i], f.value, done);
        sub := sub + [f.value];
        product := SatTimes(product, |f.value|);
        Snoc(hs, i);
      }
      WholePrefix(hs);
    }

    /** The roots of the whole corpus: every registered type, in order. */
    method StitchAll(depth: int) returns (r: Result<seq<Tree>, string>)
      requires Valid() && depth < TWO_31
      modifies this
      ensures Valid() && Grew(old(State()), State(), Max(0, depth) + 1)
      ensures r == AnswerAll(reg.snippets, cap, TypesOf(reg.snippets), Max(0, depth))
      ensures r.Ok? ==> AllAnswered(reg.snippets, cap, TypesOf(reg.snippets), Max(0, depth), r.value, done)
    {
      var ts := reg.typeOrder;
      ghost var d: nat := Max(0, depth);
      GrewNot(State(), d + 1);
      var out := [];
      for i := 0 to |ts|
        invariant Valid() && Grew(old(State()), State(), d + 1)
        invariant AllAnswered(reg.snippets, cap, ts[..i], d, out, done)
      {
        ghost var before := State();
        var one := Stitch(ts[i], depth);
        GrewSteps(old(State()), before, State(), d + 1, d + 1);
        AnswerAllStep(reg.snippets, cap, ts[..i], d, out, before.done, ts[i], one, done);
        Snoc(ts, i);
        if one.Err? {
          AnswerAllStops(reg.snippets, cap, ts, d, i + 1);
          return Err(one.error);
        }
        out := out + one.value;
      }
      WholePrefix(ts);
      return Ok(out);
    }
  }

  /** What `new Stitcher` does with any cap: it refuses one that is not positive. */
  method NewStitcher(r: Registry, capPerType: int) returns (s: Result<Stitcher, string>)
    requires r.Valid() && capPerType < TWO_31
    ensures s.Ok? <==> capPerType > 0
    ensures s.Ok? ==> fresh(s.value) && s.value.Valid() && s.value.reg == r && s.value.cap == capPerType
    ensures s.Ok? ==> s.value.done == {} && s.value.drops == []
  {
    if capPerType <= 0 { return Err("cap must be positive"); }
    var made := new Stitcher(r, capPerType);
    return Ok(made);
  }
}
