/** From the registry to the cardinality gate: the generator, its manifest and the gate's count. */
module CountedCoverage {
  import opened Options
  import opened Saturating
  import opened Sequences
  import opened Snippets
  import opened Enumeration
  import opened Coverage
  import opened Registries
  import opened StitcherSteps
  import opened Corpus
  import opened Manifests

  /** The registered snippets the gate should see: the rejections, and whatever can root a tree. */
  ghost predicate Countable(lib: seq<Snippet>, depth: nat, s: Snippet) {
    s in lib && (s in RejectsOf(lib) || RootsSome(lib, s.ty, depth, s))
  }

  ghost function Counted(lib: seq<Snippet>, depth: nat, sec: string): set<Snippet> {
    set s | s in lib && Countable(lib, depth, s) && sec in s.sections
  }

  ghost predicate Fits(lib: seq<Snippet>, cap: nat, depth: nat) {
    forall ty: string :: |Rooting(lib, ty, depth)| <= cap
  }

  lemma {:induction false} RejectsAreRegistered(lib: seq<Snippet>)
    ensures forall s :: s in RejectsOf(lib) ==> s in lib
  {
    if lib != [] { RejectsAreRegistered(lib[..|lib|-1]); }
  }

  /** The roots of the corpus are the snippets that can root anything. */
  lemma RootsOfCorpus(lib: seq<Snippet>, cap: nat, depth: nat, s: Snippet)
    requires 0 < cap <= KEEP_CAP && Distinct(lib) && Fits(lib, cap, depth)
    requires AnswerAll(lib, cap, TypesOf(lib), depth).Ok?
    ensures s in Roots(AnswerAll(lib, cap, TypesOf(lib), depth).value) <==> s in lib && RootsSome(lib, s.ty, depth, s)
  {
    var corpus := AnswerAll(lib, cap, TypesOf(lib), depth).value;
    if s in lib && RootsSome(lib, s.ty, depth, s) {
      assert s in Rooting(lib, s.ty, depth);
      EverySnippetIsARoot(lib, cap, depth, s.ty, s);
      var t: Tree :| t.snip == s && t in corpus;
      var i :| 0 <= i < |corpus| && corpus[i] == t;
      assert Roots(corpus)[i] == s;
    }
    if s in Roots(corpus) {
      var i :| 0 <= i < |corpus| && Roots(corpus)[i] == s;
      var t := corpus[i];
      CorpusMember(lib, cap, TypesOf(lib), depth, t);
      var k :| 0 <= k < |TypesOf(lib)| && t in Capped(lib, cap, TypesOf(lib)[k], depth);
      CappedIsSound(lib, cap, TypesOf(lib)[k], depth, t);
      assert Stitchable(lib, s.ty, depth, t);
    }
  }

  lemma IdsNameSnippets(lib: seq<Snippet>, some: set<Snippet>)
    requires UniqueIds(lib) && forall s :: s in some ==> s in lib
    ensures |set s | s in some :: s.id| == |some|
  {
    var ids := set s | s in some :: s.id;
    if some != {} {
      var s :| s in some;
      var fewer := some - {s};
      IdsNameSnippets(lib, fewer);
      forall t | t in fewer ensures t.id != s.id { DifferentIds(lib, s, t); }
      assert ids == (set t | t in fewer :: t.id) + {s.id};
    }
  }

  lemma DifferentIds(lib: seq<Snippet>, s: Snippet, t: Snippet)
    requires UniqueIds(lib) && s in lib && t in lib && s != t
    ensures s.id != t.id
  {
    var i :| 0 <= i < |lib| && lib[i] == s;
    var j :| 0 <= j < |lib| && lib[j] == t;
  }

  /** When no type has more usable snippets than the cap has places, the gate finds for every section
      exactly the number of registered snippets that cite it and can root a tree or be rejected: what
      the cap cuts never lowers a count. */
  lemma CountIsCoverage(heading: seq<string>, lib: seq<Snippet>, cap: nat, depth: nat, sec: string)
    requires Headed(heading) && 0 < cap <= KEEP_CAP && UniqueIds(lib) && Fits(lib, cap, depth)
    requires AnswerAll(lib, cap, TypesOf(lib), depth).Ok?
    requires AllSafe(Roots(AnswerAll(lib, cap, TypesOf(lib), depth).value) + RejectsOf(lib))
    ensures var corpus := AnswerAll(lib, cap, TypesOf(lib), depth).value;
            |IdsFor(ReadBack(heading, corpus, RejectsOf(lib)), sec)| == |Counted(lib, depth, sec)|
  {
    var corpus := AnswerAll(lib, cap, TypesOf(lib), depth).value;
    var cited := Roots(corpus) + RejectsOf(lib);
    UniqueIdsDistinct(lib);
    CountsAreCitations(heading, corpus, RejectsOf(lib));
    RejectsAreRegistered(lib);
    forall s ensures s in cited <==> Countable(lib, depth, s) { RootsOfCorpus(lib, cap, depth, s); }
    assert Citers(cited, sec) == set s | s in Counted(lib, depth, sec) :: s.id;
    IdsNameSnippets(lib, Counted(lib, depth, sec));
  }
}
