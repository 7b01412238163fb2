/** The memo table and the drop log as views of the set of enumerations finished so far. */
module StitcherLog {
  import opened JavaInts
  import opened Options
  import opened Saturating
  import opened Sequences
  import opened Snippets
  import opened WaterFilling
  import opened Enumeration
  import opened Demand
  import opened MemoKeys

  /** One enumeration: a root type at a depth. */
  datatype Job = Job(ty: string, depth: nat)

  datatype Detail = Detail(id: string, kept: int, offered: int)

  /** One entry of the drop log. */
  datatype Cut = Cut(job: Job, cap: int, enumerable: int, saturated: bool, kept: int, lost: int, details: seq<Detail>)

  function Details(cands: seq<Snippet>, quota: seq<int>, offers: seq<int>): seq<Detail>
    requires |cands| == |quota| == |offers|
  {
    if cands == [] then []
    else
      var n := |cands| - 1;
      Details(cands[..n], quota[..n], offers[..n])
        + if quota[n] < offers[n] then [Detail(cands[n].id, quota[n], offers[n])] else []
  }

  function Enumerable(lib: seq<Snippet>, cap: nat, job: Job): int {
    Min(Sum(Offers(lib, cap, ByType(lib, job.ty), job.depth)), SAT)
  }

  function DetailsOf(lib: seq<Snippet>, cap: nat, job: Job): seq<Detail> {
    var cands := ByType(lib, job.ty);
    Details(cands, Quotas(lib, cap, cands, job.depth), Offers(lib, cap, cands, job.depth))
  }

  function CutRecord(lib: seq<Snippet>, cap: nat, job: Job): Cut {
    var enumerable, kept := Enumerable(lib, cap, job), |Capped(lib, cap, job.ty, job.depth)|;
    Cut(job, cap, enumerable, enumerable >= SAT, kept, enumerable - kept, DetailsOf(lib, cap, job))
  }

  lemma {:induction false} DetailsMeanCut(cands: seq<Snippet>, quota: seq<int>, offers: seq<int>)
    requires |cands| == |quota| == |offers|
    ensures Details(cands, quota, offers) != [] <==> exists i :: 0 <= i < |cands| && quota[i] < offers[i]
  {
    if cands != [] {
      var n := |cands| - 1;
      DetailsMeanCut(cands[..n], quota[..n], offers[..n]);
      if Details(cands[..n], quota[..n], offers[..n]) != [] {
        var i :| 0 <= i < n && quota[..n][i] < offers[..n][i];
        assert quota[i] < offers[i];
      }
      if i :| 0 <= i < n && quota[i] < offers[i] {
        assert quota[..n][i] < offers[..n][i];
      }
    }
  }

  ghost predicate JobIsCut(lib: seq<Snippet>, cap: nat, job: Job) {
    IsCut(lib, cap, job.ty, job.depth)
  }

  function Kept(lib: seq<Snippet>, cap: nat, job: Job): seq<Tree> {
    Capped(lib, cap, job.ty, job.depth)
  }

  // ---- the memo table ----

  /** Everything the job was filled from is itself finished. */
  ghost predicate Closed(lib: seq<Snippet>, done: set<Job>, job: Job) {
    job.depth > 0 ==> forall s, h :: s in ByType(lib, job.ty) && h in s.holes ==> Job(h, job.depth - 1) in done
  }

  ghost predicate Finished(lib: seq<Snippet>, cap: nat, memo: map<string, seq<Tree>>, done: set<Job>, job: Job) {
    && Key(job.ty, job.depth) in memo
    && memo[Key(job.ty, job.depth)] == Kept(lib, cap, job)
    && Missing(lib, job.ty, job.depth) == None
    && Closed(lib, done, job)
  }

  ghost predicate Keyed(done: set<Job>, k: string) {
    exists job :: job in done && k == Key(job.ty, job.depth)
  }

  /** The table holds exactly the finished jobs, each with the memo-free answer. */
  ghost predicate MemoHolds(lib: seq<Snippet>, cap: nat, memo: map<string, seq<Tree>>, done: set<Job>) {
    && (forall job :: job in done ==> Finished(lib, cap, memo, done, job))
    && (forall k :: k in memo ==> Keyed(done, k))
  }

  /** Looking a job up by its key finds it exactly if it is finished. */
  lemma MemoLookup(lib: seq<Snippet>, cap: nat, p: Progress, job: Job)
    requires Consistent(lib, cap, p)
    ensures Key(job.ty, job.depth) in p.memo <==> job in p.done
    ensures job in p.done ==>
              p.memo[Key(job.ty, job.depth)] == Kept(lib, cap, job) && Missing(lib, job.ty, job.depth) == None
  {
    var memo, done := p.memo, p.done;
    if Key(job.ty, job.depth) in memo {
      assert Keyed(done, Key(job.ty, job.depth));
      var j :| j in done && Key(job.ty, job.depth) == Key(j.ty, j.depth);
      KeyIsInjective(job.ty, job.depth, j.ty, j.depth);
    }
    if job in done { assert Finished(lib, cap, memo, done, job); }
  }

  lemma MemoGrows(lib: seq<Snippet>, cap: nat, memo: map<string, seq<Tree>>, done: set<Job>, job: Job)
    requires MemoHolds(lib, cap, memo, done)
    requires Missing(lib, job.ty, job.depth) == None && Closed(lib, done, job)
    ensures MemoHolds(lib, cap, memo[Key(job.ty, job.depth) := Kept(lib, cap, job)], done + {job})
  {
    var key := Key(job.ty, job.depth);
    var memo', done' := memo[key := Kept(lib, cap, job)], done + {job};
    forall j | j in done' ensures Finished(lib, cap, memo', done', j) {
      KeyIsInjective(job.ty, job.depth, j.ty, j.depth);
      if j != job { assert Finished(lib, cap, memo, done, j); }
    }
    forall k | k in memo' ensures Keyed(done', k) {
      if k != key {
        assert Keyed(done, k);
        var j :| j in done && k == Key(j.ty, j.depth);
        assert j in done';
      } else {
        assert job in done';
      }
    }
  }

  // ---- the drop log ----

  ghost predicate Logged(drops: seq<Cut>, job: Job) {
    exists i :: 0 <= i < |drops| && drops[i].job == job
  }

  ghost predicate LoggedOnce(drops: seq<Cut>) {
    forall i, j :: 0 <= i < j < |drops| ==> drops[i].job != drops[j].job
  }

  ghost predicate TrueEntry(lib: seq<Snippet>, cap: nat, done: set<Job>, c: Cut) {
    c.job in done && JobIsCut(lib, cap, c.job) && c == CutRecord(lib, cap, c.job)
  }

  /** The log holds exactly the truncated jobs among the finished ones, each once, each with the
      figures of the memo-free enumeration. */
  ghost predicate LogHolds(lib: seq<Snippet>, cap: nat, drops: seq<Cut>, done: set<Job>) {
    && LoggedOnce(drops)
    && (forall i :: 0 <= i < |drops| ==> TrueEntry(lib, cap, done, drops[i]))
    && (forall job :: job in done && JobIsCut(lib, cap, job) ==> Logged(drops, job))
  }

  /** A finished job that was not cut leaves the log as it is. */
  lemma LogKeeps(lib: seq<Snippet>, cap: nat, drops: seq<Cut>, done: set<Job>, job: Job)
    requires LogHolds(lib, cap, drops, done) && !JobIsCut(lib, cap, job)
    ensures LogHolds(lib, cap, drops, done + {job})
  {
    forall i | 0 <= i < |drops| ensures TrueEntry(lib, cap, done + {job}, drops[i]) {
      assert TrueEntry(lib, cap, done, drops[i]);
    }
  }

  lemma LoggedMore(drops: seq<Cut>, c: Cut, job: Job)
    ensures Logged(drops + [c], job) <==> Logged(drops, job) || c.job == job
  {
    var more := drops + [c];
    if Logged(drops, job) {
      var i :| 0 <= i < |drops| && drops[i].job == job;
      assert more[i].job == job;
    }
    if c.job == job { assert more[|drops|].job == job; }
  }

  lemma LogGrows(lib: seq<Snippet>, cap: nat, drops: seq<Cut>, done: set<Job>, job: Job)
    requires LogHolds(lib, cap, drops, done) && job !in done && JobIsCut(lib, cap, job)
    ensures LogHolds(lib, cap, drops + [CutRecord(lib, cap, job)], done + {job})
  {
    var c := CutRecord(lib, cap, job);
    forall i | 0 <= i < |drops| ensures TrueEntry(lib, cap, done + {job}, drops[i]) && drops[i].job != job {
      assert TrueEntry(lib, cap, done, drops[i]);
    }
    assert TrueEntry(lib, cap, done + {job}, c);
    forall j | j in done + {job} && JobIsCut(lib, cap, j) ensures Logged(drops + [c], j) { LoggedMore(drops, c, j); }
  }

  function TotalLost(drops: seq<Cut>): int {
    if drops == [] then 0 else TotalLost(drops[..|drops|-1]) + drops[|drops|-1].lost
  }

  // ---- the state of a stitcher ----

  datatype Progress = Progress(memo: map<string, seq<Tree>>, drops: seq<Cut>, dropped: int, cuts: int, done: set<Job>)

  /** The table and the log tell the truth, and the counters agree with the log. */
  ghost predicate Consistent(lib: seq<Snippet>, cap: nat, p: Progress) {
    match p
    case Progress(memo, drops, dropped, cuts, done) =>
      && MemoHolds(lib, cap, memo, done)
      && LogHolds(lib, cap, drops, done)
      && Counted(p)
  }

  /** A long sum and an int count, each on its machine width. */
  ghost predicate Counted(p: Progress) {
    match p
    case Progress(_, drops, dropped, cuts, _) =>
      dropped == Wrap64(TotalLost(drops)) && cuts == Wrap32(|drops|)
  }

  /** The state after one more finished enumeration. */
  ghost function Recorded(lib: seq<Snippet>, cap: nat, p: Progress, job: Job): Progress {
    var memo, done := p.memo[Key(job.ty, job.depth) := Kept(lib, cap, job)], p.done + {job};
    if JobIsCut(lib, cap, job) then
      var c := CutRecord(lib, cap, job);
      Progress(memo, p.drops + [c], Wrap64(p.dropped + c.lost), Wrap32(p.cuts + 1), done)
    else
      Progress(memo, p.drops, p.dropped, p.cuts, done)
  }

  /** The same step as the program takes it, from the figures at hand. */
  function Advance(cap: int, p: Progress, job: Job, enumerable: int, out: seq<Tree>, details: seq<Detail>): Progress {
    var memo, done := p.memo[Key(job.ty, job.depth) := out], p.done + {job};
    if details != [] then
      var lost := enumerable - |out|;
      var c := Cut(job, cap, enumerable, enumerable >= SAT, |out|, lost, details);
      Progress(memo, p.drops + [c], Wrap64(p.dropped + lost), Wrap32(p.cuts + 1), done)
    else
      Progress(memo, p.drops, p.dropped, p.cuts, done)
  }

  lemma AdvanceIsRecorded(lib: seq<Snippet>, cap: nat, p: Progress, job: Job)
    ensures Advance(cap, p, job, Enumerable(lib, cap, job), Kept(lib, cap, job), DetailsOf(lib, cap, job))
         == Recorded(lib, cap, p, job)
  {
    DetailsMeanJobCut(lib, cap, job);
  }

  lemma DetailsMeanJobCut(lib: seq<Snippet>, cap: nat, job: Job)
    ensures DetailsOf(lib, cap, job) != [] <==> JobIsCut(lib, cap, job)
  {
    var cands := ByType(lib, job.ty);
    DetailsMeanCut(cands, Quotas(lib, cap, cands, job.depth), Offers(lib, cap, cands, job.depth));
  }

  lemma CountersGrow(lib: seq<Snippet>, cap: nat, p: Progress, job: Job)
    requires Counted(p)
    ensures Counted(Recorded(lib, cap, p, job))
  {
    TotalGrows(p.drops, CutRecord(lib, cap, job));
  }

  lemma TotalGrows(drops: seq<Cut>, c: Cut)
    ensures Wrap64(Wrap64(TotalLost(drops)) + c.lost) == Wrap64(TotalLost(drops + [c]))
    ensures Wrap32(Wrap32(|drops|) + 1) == Wrap32(|drops + [c]|)
  {
    assert (drops + [c])[..|drops|] == drops;
    Wrap64Idempotent(TotalLost(drops), c.lost);
    Wrap32Idempotent(|drops|, 1);
  }

  lemma RecordedIsConsistent(lib: seq<Snippet>, cap: nat, p: Progress, job: Job)
    requires Consistent(lib, cap, p) && job !in p.done
    requires Missing(lib, job.ty, job.depth) == None && Closed(lib, p.done, job)
    ensures Consistent(lib, cap, Recorded(lib, cap, p, job))
  {
    if JobIsCut(lib, cap, job) {
      LogGrows(lib, cap, p.drops, p.done, job);
    } else {
      LogKeeps(lib, cap, p.drops, p.done, job);
    }
    MemoGrows(lib, cap, p.memo, p.done, job);
    CountersGrow(lib, cap, p, job);
  }

  // ---- what an empty log is worth ----

  lemma {:induction false} FinishedIsCutFree(lib: seq<Snippet>, cap: nat, memo: map<string, seq<Tree>>,
                                             done: set<Job>, job: Job)
    requires MemoHolds(lib, cap, memo, done) && job in done
    requires forall j :: j in done ==> !JobIsCut(lib, cap, j)
    ensures CutFree(lib, cap, job.ty, job.depth)
    decreases job.depth
  {
    assert !JobIsCut(lib, cap, job);
    assert Finished(lib, cap, memo, done, job);
    if job.depth > 0 {
      forall s, h | s in ByType(lib, job.ty) && h in s.holes ensures CutFree(lib, cap, h, job.depth - 1) {
        FinishedIsCutFree(lib, cap, memo, done, Job(h, job.depth - 1));
      }
    }
  }

  /** The claim of Stitcher.dropLog: the log is empty exactly when every enumeration made so far
      lists every well-typed tree of its type and height. */
  lemma EmptyLogMeansComplete(lib: seq<Snippet>, cap: nat, p: Progress)
    requires NoSmallWrap(cap) && Distinct(lib) && Consistent(lib, cap, p)
    ensures p.drops == [] <==> forall job :: job in p.done ==> Kept(lib, cap, job) == All(lib, job.ty, job.depth)
  {
    var memo, drops, done := p.memo, p.drops, p.done;
    if drops == [] {
      forall j | j in done ensures !JobIsCut(lib, cap, j) {
        assert JobIsCut(lib, cap, j) ==> Logged(drops, j);
      }
      forall job | job in done ensures Kept(lib, cap, job) == All(lib, job.ty, job.depth) {
        FinishedIsCutFree(lib, cap, memo, done, job);
        CutFreeIsComplete(lib, cap, job.ty, job.depth);
      }
    } else {
      assert TrueEntry(lib, cap, done, drops[0]);
      CutLosesTrees(lib, cap, drops[0].job.ty, drops[0].job.depth);
    }
  }
}
