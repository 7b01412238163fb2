/** What an empty drop log is worth: the caps at which it means a complete enumeration, exactly. */
module SilentLoss {
  import opened JavaInts
  import opened Options
  import opened Saturating
  import opened Sequences
  import opened Snippets
  import opened Enumeration
  import opened Demand
  import opened Registries
  import opened StitcherLog
  import opened LeafLibraries

  /** Every enumeration made so far lists every well-typed tree of its type and height. */
  ghost predicate AllComplete(lib: seq<Snippet>, cap: nat, p: Progress) {
    forall job :: job in p.done ==> StitcherLog.Kept(lib, cap, job) == All(lib, job.ty, job.depth)
  }

  /** With this cap an empty log can be believed, whatever is registered and whatever has been asked. */
  ghost predicate LogIsTrue(cap: nat) {
    forall lib: seq<Snippet>, p: Progress ::
      Registrable(lib) && Consistent(lib, cap, p) && p.drops == [] ==> AllComplete(lib, cap, p)
  }

  // ---- runs that log nothing ----

  /** If the root's count fits the cap, no run over the registry logs anything. */
  lemma LogStaysEmpty(lens: seq<nat>, cap: nat, p: Progress)
    requires Within(lens, cap) && lens != [] && SatProduct(lens) <= cap && Consistent(Library(lens), cap, p)
    ensures p.drops == []
  {
    if p.drops != [] {
      var job := p.drops[0].job;
      assert TrueEntry(Library(lens), cap, p.done, p.drops[0]);
      NothingIsCut(lens, cap, job.ty, job.depth);
    }
  }

  lemma NothingDone(lib: seq<Snippet>, cap: nat)
    ensures Consistent(lib, cap, Progress(map[], [], 0, 0, {}))
  {
  }

  /** An enumeration that is not cut adds its job and nothing to the log. */
  lemma OneMoreJob(lib: seq<Snippet>, cap: nat, before: Progress, job: Job) returns (p: Progress)
    requires Consistent(lib, cap, before) && before.drops == [] && job !in before.done
    requires Missing(lib, job.ty, job.depth) == None && Closed(lib, before.done, job) && !JobIsCut(lib, cap, job)
    ensures Consistent(lib, cap, p) && p.drops == [] && p.done == before.done + {job}
  {
    RecordedIsConsistent(lib, cap, before, job);
    p := Recorded(lib, cap, before, job);
  }

  /** A job that asks for nothing else, finds all it needs and is not cut. */
  ghost predicate Ready(lib: seq<Snippet>, cap: nat, job: Job) {
    job.depth == 0 && Missing(lib, job.ty, 0) == None && !JobIsCut(lib, cap, job)
  }

  /** A run over such jobs, each once. */
  lemma {:induction false} RunOf(lib: seq<Snippet>, cap: nat, jobs: seq<Job>) returns (p: Progress)
    requires Distinct(jobs) && forall i :: 0 <= i < |jobs| ==> Ready(lib, cap, jobs[i])
    ensures Consistent(lib, cap, p) && p.drops == [] && forall job :: job in p.done <==> job in jobs
  {
    if jobs == [] {
      p := Progress(map[], [], 0, 0, {});
      NothingDone(lib, cap);
    } else {
      var job := jobs[|jobs|-1];
      var before := RunOf(lib, cap, jobs[..|jobs|-1]);
      assert Ready(lib, cap, job);
      p := OneMoreJob(lib, cap, before, job);
    }
  }

  function LeafJobs(n: nat): (jobs: seq<Job>)
    ensures |jobs| == n && forall i :: 0 <= i < n ==> jobs[i] == Job(TypeName(i), 0)
  {
    seq(n, i requires 0 <= i < n => Job(TypeName(i), 0))
  }

  lemma LeafJobsReady(lens: seq<nat>, cap: nat)
    requires lens != [] && Within(lens, cap) && SatProduct(lens) <= cap
    requires forall i :: 0 <= i < |lens| ==> lens[i] > 0
    ensures var jobs := LeafJobs(|lens|);
            && Distinct(jobs) && Job("r", 1) !in jobs
            && forall i :: 0 <= i < |jobs| ==> Ready(Library(lens), cap, jobs[i])
  {
    var jobs := LeafJobs(|lens|);
    RootIsSupplied(lens);
    forall i | 0 <= i < |jobs| ensures Ready(Library(lens), cap, jobs[i]) { NothingIsCut(lens, cap, TypeName(i), 0); }
    forall i, j | 0 <= i < j < |jobs| ensures jobs[i] != jobs[j] { NamesDiffer(i, j); }
  }

  /** A run that has enumerated the root type one level up. */
  lemma RootRun(lens: seq<nat>, cap: nat) returns (p: Progress)
    requires lens != [] && Within(lens, cap) && SatProduct(lens) <= cap
    requires forall i :: 0 <= i < |lens| ==> lens[i] > 0
    ensures Consistent(Library(lens), cap, p) && p.drops == [] && Job("r", 1) in p.done
  {
    LeafJobsReady(lens, cap);
    var before := RunOf(Library(lens), cap, LeafJobs(|lens|));
    var job := Job("r", 1);
    RootIsSupplied(lens);
    RootBucket(lens);
    NothingIsCut(lens, cap, "r", 1);
    HolesAreDone(lens, before.done);
    p := OneMoreJob(Library(lens), cap, before, job);
  }

  lemma HolesAreDone(lens: seq<nat>, done: set<Job>)
    requires forall job :: job in LeafJobs(|lens|) ==> job in done
    ensures Closed(Library(lens), done, Job("r", 1))
  {
    RootBucket(lens);
    forall h | h in Root(lens).holes ensures Job(h, 0) in done {
      var i :| 0 <= i < |lens| && Root(lens).holes[i] == h;
      assert LeafJobs(|lens|)[i] == Job(h, 0);
    }
  }

  // ---- the exact condition ----

  lemma WrongIsPositive(lens: seq<nat>)
    ensures SatProduct(lens) != Product(lens) ==> lens != [] && forall i :: 0 <= i < |lens| ==> lens[i] > 0
  {
    SatProductIsLower(lens);
    ProductPositive(lens);
  }

  /** Where the log can be believed, a count within the cap must be true. */
  lemma TrueLogCounts(lens: seq<nat>, cap: nat)
    requires LogIsTrue(cap) && Within(lens, cap) && SatProduct(lens) <= cap
    ensures SatProduct(lens) == Product(lens)
  {
    if lens != [] && forall i :: 0 <= i < |lens| ==> lens[i] > 0 {
      var p := RootRun(lens, cap);
      LibraryIsRegistrable(lens);
      RootType(lens, cap, 1);
      assert AllComplete(Library(lens), cap, p);
    } else {
      WrongIsPositive(lens);
    }
  }

  /** For every cap: an empty log always means a complete enumeration if and only if no product of list
      lengths within the cap wraps round to a count within the cap. */
  lemma LogIsTrueIff(cap: nat)
    ensures LogIsTrue(cap) <==> NoSmallWrap(cap)
  {
    if NoSmallWrap(cap) {
      forall lib: seq<Snippet>, p: Progress | Registrable(lib) && Consistent(lib, cap, p) && p.drops == []
        ensures AllComplete(lib, cap, p)
      {
        UniqueIdsDistinct(lib);
        EmptyLogMeansComplete(lib, cap, p);
      }
    }
    if LogIsTrue(cap) {
      forall lens: seq<nat> | Within(lens, cap) && SatProduct(lens) <= cap ensures SatProduct(lens) == Product(lens) {
        TrueLogCounts(lens, cap);
      }
    }
  }

  /** So it can be believed up to a cap of 18446, and not from 18485 on. */
  lemma LogIsTrueUpTo(cap: nat)
    ensures cap <= EXACT_CAP ==> LogIsTrue(cap)
    ensures cap >= 18485 ==> !LogIsTrue(cap)
  {
    LogIsTrueIff(cap);
    SmallWraps(cap);
  }

  /** From a cap of 18485 on there is a registry over which every enumeration runs through and none is
      ever logged, and yet all but 14744 of more than 2^64 well-typed trees are missing. */
  lemma EmptyLogCanLie(cap: nat)
    requires cap >= 18485
    ensures var lib := Library(LYING);
            && Registrable(lib) && Missing(lib, "r", 1) == None
            && (forall p :: Consistent(lib, cap, p) ==> p.drops == [])
            && |Capped(lib, cap, "r", 1)| == 14744 && |All(lib, "r", 1)| == TWO_64 + 14744
  {
    LyingWraps();
    LibraryIsRegistrable(LYING);
    RootIsSupplied(LYING);
    assert Within(LYING, cap);
    RootType(LYING, cap, 1);
    forall p | Consistent(Library(LYING), cap, p) ensures p.drops == [] { LogStaysEmpty(LYING, cap, p); }
  }
}
