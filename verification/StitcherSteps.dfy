/** The loops of Stitcher.stitch, one step at a time: what each has established so far. */
module StitcherSteps {
  import opened JavaInts
  import opened Options
  import opened Saturating
  import opened Odometer
  import opened Snippets
  import opened WaterFilling
  import opened Enumeration
  import opened Demand
  import opened StitcherLog

  /** What one enumeration answers: the type nothing produces, or the kept trees. */
  function Answer(lib: seq<Snippet>, cap: nat, job: Job): Result<seq<Tree>, string> {
    match Missing(lib, job.ty, job.depth)
    case Some(u) => Err(u)
    case None => Ok(StitcherLog.Kept(lib, cap, job))
  }

  /** Nothing is forgotten, nothing logged changes, and all that is new lies below `depth`. */
  ghost predicate Grew(p: Progress, q: Progress, depth: nat) {
    match p
    case Progress(_, drops, _, _, done) =>
      && done <= q.done
      && drops <= q.drops
      && forall j :: j in q.done && j !in done ==> j.depth < depth
  }

  lemma GrewSteps(p: Progress, q: Progress, r: Progress, low: nat, high: nat)
    requires Grew(p, q, low) && (Grew(q, r, low) || q == r) && low <= high
    ensures Grew(p, r, high)
  {
  }

  lemma GrewNot(p: Progress, depth: nat)
    ensures Grew(p, p, depth)
  {
  }

  lemma RecordedGrows(lib: seq<Snippet>, cap: nat, p: Progress, q: Progress, job: Job)
    requires Grew(p, q, job.depth)
    ensures Grew(p, Recorded(lib, cap, q, job), job.depth + 1)
  {
  }

  // ---- the holes of one snippet ----

  function Lists(lib: seq<Snippet>, cap: nat, types: seq<string>, depth: nat): (lists: seq<seq<Tree>>)
    ensures |lists| == |types|
  {
    seq(|types|, i requires 0 <= i < |types| => Capped(lib, cap, types[i], depth))
  }

  datatype Holes = Holes(sub: seq<seq<Tree>>, product: int)

  /** The lists for `hs` are gathered, every one from a finished job. */
  ghost predicate Gathered(lib: seq<Snippet>, cap: nat, hs: seq<string>, depth: nat, x: Holes, done: set<Job>)
    requires depth > 0
  {
    match x
    case Holes(sub, product) =>
      && MissingIn(lib, hs, depth) == None
      && sub == Lists(lib, cap, hs, depth - 1)
      && product == SatProduct(Lengths(sub))
      && forall k :: 0 <= k < |hs| ==> Job(hs[k], depth - 1) in done
  }

  lemma GatherStep(lib: seq<Snippet>, cap: nat, hs: seq<string>, depth: nat, x: Holes, done: set<Job>,
                   h: string, ts: seq<Tree>, done': set<Job>)
    requires depth > 0 && Gathered(lib, cap, hs, depth, x, done) && done <= done'
    requires Answer(lib, cap, Job(h, depth - 1)) == Ok(ts) && Job(h, depth - 1) in done'
    ensures Gathered(lib, cap, hs + [h], depth, Holes(x.sub + [ts], SatTimes(x.product, |ts|)), done')
  {
    assert (hs + [h])[..|hs|] == hs;
    assert x.sub + [ts] == Lists(lib, cap, hs + [h], depth - 1);
    assert Lengths(x.sub + [ts]) == Lengths(x.sub) + [|ts|];
    SatProductSnoc(Lengths(x.sub), |ts|);
  }

  // ---- the candidates of one type ----

  datatype Found = Found(offers: seq<int>, fills: seq<seq<seq<Tree>>>, enumerable: int)

  ghost predicate FilledFor(lib: seq<Snippet>, cap: nat, s: Snippet, depth: nat, fill: seq<seq<Tree>>, done: set<Job>) {
    s.holes != [] && depth > 0 ==>
      && fill == HoleLists(lib, cap, s, depth)
      && forall k :: 0 <= k < |s.holes| ==> Job(s.holes[k], depth - 1) in done
  }

  lemma GatheredIsOffer(lib: seq<Snippet>, cap: nat, s: Snippet, depth: nat, x: Holes, done: set<Job>)
    requires depth > 0 && s.holes != []
    ensures Gathered(lib, cap, s.holes, depth, x, done) ==>
      x.product == Offer(lib, cap, s, depth) && FilledFor(lib, cap, s, depth, x.sub, done)
  {
    assert Lists(lib, cap, s.holes, depth - 1) == HoleLists(lib, cap, s, depth);
  }

  ghost predicate AllFilled(lib: seq<Snippet>, cap: nat, cands: seq<Snippet>, depth: nat, x: Found, done: set<Job>) {
    match x
    case Found(_, fills, _) =>
      |fills| == |cands| && forall i :: 0 <= i < |cands| ==> FilledFor(lib, cap, cands[i], depth, fills[i], done)
  }

  ghost predicate Totalled(x: Found) {
    match x
    case Found(offers, _, enumerable) => enumerable == Min(Sum(offers), SAT) && Sum(offers) >= 0
  }

  ghost predicate Surveyed(lib: seq<Snippet>, cap: nat, cands: seq<Snippet>, depth: nat, x: Found, done: set<Job>) {
    match x
    case Found(offers, _, _) =>
      && MissingAmong(lib, cands, depth) == None
      && offers == Offers(lib, cap, cands, depth)
      && Totalled(x)
      && AllFilled(lib, cap, cands, depth, x, done)
  }

  /** The record of the survey after one more candidate. */
  function Add(x: Found, here: int, fill: seq<seq<Tree>>): Found {
    Found(x.offers + [here], x.fills + [fill], SatSum(x.enumerable, here))
  }

  lemma SurveyStep(lib: seq<Snippet>, cap: nat, cands: seq<Snippet>, depth: nat, x: Found, done: set<Job>,
                   s: Snippet, here: int, fill: seq<seq<Tree>>, done': set<Job>)
    requires Surveyed(lib, cap, cands, depth, x, done) && done <= done'
    requires MissingIn(lib, s.holes, depth) == None && here == Offer(lib, cap, s, depth)
    requires FilledFor(lib, cap, s, depth, fill, done')
    ensures Surveyed(lib, cap, cands + [s], depth, Add(x, here, fill), done')
  {
    OffersSnoc(lib, cap, cands, depth, s);
    TotalStep(x, here, fill);
    MissingAmongSnoc(lib, cands, depth, s);
    FilledStep(lib, cap, cands, depth, x, done, s, here, fill, done');
  }

  lemma TotalStep(x: Found, here: int, fill: seq<seq<Tree>>)
    requires Totalled(x) && 0 <= here <= SAT
    ensures Totalled(Add(x, here, fill))
  {
    assert (x.offers + [here])[..|x.offers|] == x.offers;
  }

  lemma FilledStep(lib: seq<Snippet>, cap: nat, cands: seq<Snippet>, depth: nat, x: Found, done: set<Job>,
                   s: Snippet, here: int, fill: seq<seq<Tree>>, done': set<Job>)
    requires AllFilled(lib, cap, cands, depth, x, done) && done <= done'
    requires FilledFor(lib, cap, s, depth, fill, done')
    ensures AllFilled(lib, cap, cands + [s], depth, Add(x, here, fill), done')
  {
    forall i | 0 <= i < |cands + [s]|
      ensures FilledFor(lib, cap, (cands + [s])[i], depth, (x.fills + [fill])[i], done')
    {
      if i < |cands| { assert FilledFor(lib, cap, cands[i], depth, x.fills[i], done); }
    }
  }

  lemma MissingAmongSnoc(lib: seq<Snippet>, cands: seq<Snippet>, depth: nat, s: Snippet)
    requires MissingAmong(lib, cands, depth) == None
    ensures MissingAmong(lib, cands + [s], depth) == MissingIn(lib, s.holes, depth)
  {
    assert (cands + [s])[..|cands|] == cands;
  }

  lemma OffersSnoc(lib: seq<Snippet>, cap: nat, cands: seq<Snippet>, depth: nat, s: Snippet)
    ensures Offers(lib, cap, cands + [s], depth) == Offers(lib, cap, cands, depth) + [Offer(lib, cap, s, depth)]
  {
  }

  lemma SurveyedIsClosed(lib: seq<Snippet>, cap: nat, job: Job, x: Found, done: set<Job>)
    requires Surveyed(lib, cap, ByType(lib, job.ty), job.depth, x, done)
    ensures Closed(lib, done, job)
  {
    var cands := ByType(lib, job.ty);
    if job.depth > 0 {
      forall s, h | s in cands && h in s.holes ensures Job(h, job.depth - 1) in done {
        var i :| 0 <= i < |cands| && cands[i] == s;
        assert FilledFor(lib, cap, cands[i], job.depth, x.fills[i], done);
      }
    }
  }

  // ---- the first failure stops the loops ----

  lemma {:induction false} MissingAmongStops(lib: seq<Snippet>, cands: seq<Snippet>, depth: nat, i: nat)
    requires i < |cands| && MissingAmong(lib, cands[..i], depth) == None && MissingIn(lib, cands[i].holes, depth).Some?
    ensures MissingAmong(lib, cands, depth) == MissingIn(lib, cands[i].holes, depth)
  {
    var n := |cands| - 1;
    if i < n {
      assert cands[..n][..i] == cands[..i];
      MissingAmongStops(lib, cands[..n], depth, i);
    }
  }

  lemma {:induction false} MissingInStops(lib: seq<Snippet>, hs: seq<string>, depth: nat, i: nat)
    requires depth > 0 && i < |hs| && MissingIn(lib, hs[..i], depth) == None && Missing(lib, hs[i], depth - 1).Some?
    ensures MissingIn(lib, hs, depth) == Missing(lib, hs[i], depth - 1)
  {
    var init, last := hs[..|hs|-1], hs[|hs|-1];
    if i < |init| {
      assert init[..i] == hs[..i];
      MissingInStops(lib, init, depth, i);
    } else {
      assert init == hs[..i] && last == hs[i];
    }
  }

  // ---- all types in a row ----

  function AnswerAll(lib: seq<Snippet>, cap: nat, types: seq<string>, depth: nat): Result<seq<Tree>, string> {
    if types == [] then Ok([])
    else
      var n := |types| - 1;
      match AnswerAll(lib, cap, types[..n], depth)
      case Err(u) => Err(u)
      case Ok(before) =>
        match Answer(lib, cap, Job(types[n], depth))
        case Err(u) => Err(u)
        case Ok(ts) => Ok(before + ts)
  }

  /** The first types are all answered, each by a finished job. */
  ghost predicate AllAnswered(lib: seq<Snippet>, cap: nat, types: seq<string>, depth: nat, out: seq<Tree>,
                              done: set<Job>) {
    match AnswerAll(lib, cap, types, depth)
    case Err(_) => false
    case Ok(ts) => ts == out && forall k :: 0 <= k < |types| ==> Job(types[k], depth) in done
  }

  lemma AnswerAllStep(lib: seq<Snippet>, cap: nat, types: seq<string>, depth: nat, out: seq<Tree>, done: set<Job>,
                      ty: string, one: Result<seq<Tree>, string>, done': set<Job>)
    requires AllAnswered(lib, cap, types, depth, out, done) && done <= done'
    requires one == Answer(lib, cap, Job(ty, depth)) && (one.Ok? ==> Job(ty, depth) in done')
    ensures one.Ok? ==> AllAnswered(lib, cap, types + [ty], depth, out + one.value, done')
    ensures one.Err? ==> AnswerAll(lib, cap, types + [ty], depth) == Err(one.error)
  {
    assert (types + [ty])[..|types|] == types;
  }

  lemma {:induction false} AnswerAllStops(lib: seq<Snippet>, cap: nat, ts: seq<string>, depth: nat, i: nat)
    requires i <= |ts| && AnswerAll(lib, cap, ts[..i], depth).Err?
    ensures AnswerAll(lib, cap, ts, depth) == AnswerAll(lib, cap, ts[..i], depth)
  {
    var n := |ts| - 1;
    if i < |ts| {
      assert ts[..n][..i] == ts[..i];
      AnswerAllStops(lib, cap, ts[..n], depth, i);
    } else {
      assert ts[..i] == ts;
    }
  }
}
