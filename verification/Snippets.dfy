/** Snippets, the trees stitched from them, and every well-typed tree of bounded height. */
module Snippets {
  import opened Odometer
  import opened Sequences
  import opened Rules

  /** A template that expects a compile-time error declares this type and fills no hole. */
  const REJECT := "reject"

  datatype Snippet = Snippet(id: string, sections: seq<string>, ty: string, holes: seq<string>, rule: Rule)

  datatype Tree = Tree(snip: Snippet, kids: seq<Tree>)

  ghost predicate UniqueIds(lib: seq<Snippet>) {
    forall i, j :: 0 <= i < j < |lib| ==> lib[i].id != lib[j].id
  }

  lemma UniqueIdsDistinct(lib: seq<Snippet>)
    requires UniqueIds(lib)
    ensures Distinct(lib)
  {
    forall i, j | 0 <= i < j < |lib| ensures lib[i] != lib[j] { assert lib[i].id != lib[j].id; }
  }

  /** The snippets yielding `ty`, in registration order. */
  function ByType(lib: seq<Snippet>, ty: string): seq<Snippet> {
    if lib == [] then []
    else if lib[|lib|-1].ty == ty && ty != REJECT then ByType(lib[..|lib|-1], ty) + [lib[|lib|-1]]
    else ByType(lib[..|lib|-1], ty)
  }

  lemma {:induction false} ByTypeMembers(lib: seq<Snippet>, ty: string)
    ensures forall s :: s in ByType(lib, ty) <==> s in lib && s.ty == ty && ty != REJECT
  {
    if lib != [] {
      ByTypeMembers(lib[..|lib|-1], ty);
      InitLast(lib);
    }
  }

  predicate Produces(lib: seq<Snippet>, ty: string) {
    ByType(lib, ty) != []
  }

  lemma {:induction false} ByTypeDistinct(lib: seq<Snippet>, ty: string)
    requires Distinct(lib)
    ensures Distinct(ByType(lib, ty))
  {
    if lib != [] {
      var init, last := lib[..|lib|-1], lib[|lib|-1];
      ByTypeDistinct(init, ty);
      assert last !in init;
      ByTypeMembers(init, ty);
      DistinctConcat(ByType(init, ty), if last.ty == ty && ty != REJECT then [last] else []);
    }
  }

  lemma {:induction false} ByTypeConcat(a: seq<Snippet>, b: seq<Snippet>, ty: string)
    ensures ByType(a + b, ty) == ByType(a, ty) + ByType(b, ty)
  {
    if b == [] {
      assert a + b == a;
    } else {
      var init, last := b[..|b|-1], b[|b|-1];
      ByTypeConcat(a, init, ty);
      LastOfConcat(a, b);
      if last.ty == ty && ty != REJECT { Associates(ByType(a, ty), ByType(init, ty), [last]); }
    }
  }

  // ---- well-typed trees ----

  /** Every hole is filled by a registered snippet of the hole's type. */
  predicate WellTyped(lib: seq<Snippet>, t: Tree) {
    && t.snip in lib
    && t.snip.ty != REJECT
    && |t.kids| == |t.snip.holes|
    && forall i :: 0 <= i < |t.kids| ==> t.kids[i].snip.ty == t.snip.holes[i] && WellTyped(lib, t.kids[i])
  }

  /** 1 for a leaf, 1 + the deepest child otherwise (Stitching.depth). */
  function Depth(t: Tree): nat {
    DeepestOf(t.kids) + 1
  }

  function DeepestOf(kids: seq<Tree>): nat {
    if kids == [] then 0
    else
      var first, rest := Depth(kids[0]), DeepestOf(kids[1..]);
      if first >= rest then first else rest
  }

  lemma {:induction false} DeepestBounds(kids: seq<Tree>, d: nat)
    ensures DeepestOf(kids) <= d <==> forall i :: 0 <= i < |kids| ==> Depth(kids[i]) <= d
  {
    if kids != [] {
      DeepestBounds(kids[1..], d);
      assert forall i :: 0 < i < |kids| ==> kids[i] == kids[1..][i-1];
      if DeepestOf(kids[1..]) > d {
        var i :| 0 <= i < |kids[1..]| && Depth(kids[1..][i]) > d;
        assert kids[i+1] == kids[1..][i];
      }
    }
  }

  /** A well-typed tree of the given root type with at most `levels` levels of holes. */
  predicate Stitchable(lib: seq<Snippet>, ty: string, levels: nat, t: Tree) {
    WellTyped(lib, t) && t.snip.ty == ty && Depth(t) <= levels + 1
  }

  lemma StitchableKids(lib: seq<Snippet>, ty: string, levels: nat, t: Tree)
    ensures Stitchable(lib, ty, levels, t) <==>
            && t.snip in ByType(lib, ty)
            && |t.kids| == |t.snip.holes|
            && (t.kids != [] ==> levels > 0)
            && forall i :: 0 <= i < |t.kids| ==> Stitchable(lib, t.snip.holes[i], levels - 1, t.kids[i])
  {
    ByTypeMembers(lib, ty);
    DeepestBounds(t.kids, levels);
    if t.kids != [] { assert Depth(t.kids[0]) > 0; }
  }

  // ---- the whole enumeration, without a cap ----

  function Plant(s: Snippet, fillings: seq<seq<Tree>>): (ts: seq<Tree>)
    ensures |ts| == |fillings|
  {
    seq(|fillings|, k requires 0 <= k < |fillings| => Tree(s, fillings[k]))
  }

  function All(lib: seq<Snippet>, ty: string, levels: nat): seq<Tree>
    decreases levels, 2
  {
    AllOf(lib, ByType(lib, ty), levels)
  }

  function AllOf(lib: seq<Snippet>, cands: seq<Snippet>, levels: nat): seq<Tree>
    decreases levels, 1, |cands|
  {
    if cands == [] then []
    else AllOf(lib, cands[..|cands|-1], levels) + Plant(cands[|cands|-1], AllFillings(lib, cands[|cands|-1], levels))
  }

  function AllFillings(lib: seq<Snippet>, s: Snippet, levels: nat): seq<seq<Tree>>
    decreases levels, 0
  {
    if s.holes == [] then [[]]
    else if levels == 0 then []
    else Tuples(seq(|s.holes|, i requires 0 <= i < |s.holes| => All(lib, s.holes[i], levels - 1)))
  }

  lemma PlantMember(s: Snippet, fillings: seq<seq<Tree>>, t: Tree)
    ensures t in Plant(s, fillings) <==> t.snip == s && t.kids in fillings
  {
    if t.snip == s && t.kids in fillings {
      var k :| 0 <= k < |fillings| && fillings[k] == t.kids;
      assert Plant(s, fillings)[k] == t;
    }
  }

  lemma PlantDistinct(s: Snippet, fillings: seq<seq<Tree>>)
    requires Distinct(fillings)
    ensures Distinct(Plant(s, fillings))
  {
    forall i, j | 0 <= i < j < |fillings| ensures Plant(s, fillings)[i] != Plant(s, fillings)[j] {
      assert fillings[i] != fillings[j];
    }
  }

  lemma {:induction false} AllOfMember(lib: seq<Snippet>, cands: seq<Snippet>, levels: nat, t: Tree)
    ensures t in AllOf(lib, cands, levels) <==> t.snip in cands && t.kids in AllFillings(lib, t.snip, levels)
  {
    if cands != [] {
      var init, last := cands[..|cands|-1], cands[|cands|-1];
      assert cands == init + [last];
      AllOfMember(lib, init, levels, t);
      PlantMember(last, AllFillings(lib, last, levels), t);
    }
  }

  /** `All` is exactly the set of stitchable trees. */
  lemma {:induction false} AllIsExact(lib: seq<Snippet>, ty: string, levels: nat, t: Tree)
    ensures t in All(lib, ty, levels) <==> Stitchable(lib, ty, levels, t)
    decreases levels, 1
  {
    AllOfMember(lib, ByType(lib, ty), levels, t);
    StitchableKids(lib, ty, levels, t);
    AllFillingsExact(lib, t.snip, levels, t.kids);
  }

  lemma {:induction false} AllFillingsExact(lib: seq<Snippet>, s: Snippet, levels: nat, kids: seq<Tree>)
    ensures kids in AllFillings(lib, s, levels) <==>
            && |kids| == |s.holes|
            && (kids != [] ==> levels > 0)
            && forall i :: 0 <= i < |kids| ==> Stitchable(lib, s.holes[i], levels - 1, kids[i])
    decreases levels, 0
  {
    if s.holes != [] && levels > 0 {
      var lists := seq(|s.holes|, i requires 0 <= i < |s.holes| => All(lib, s.holes[i], levels - 1));
      TuplesAreAllPicks(lists, kids);
      forall i | 0 <= i < |kids| && |kids| == |s.holes|
        ensures kids[i] in lists[i] <==> Stitchable(lib, s.holes[i], levels - 1, kids[i])
      {
        AllIsExact(lib, s.holes[i], levels - 1, kids[i]);
      }
    }
  }

  lemma {:induction false} AllOfDistinct(lib: seq<Snippet>, cands: seq<Snippet>, levels: nat)
    requires Distinct(lib) && Distinct(cands)
    ensures Distinct(AllOf(lib, cands, levels))
    decreases levels, 1, |cands|
  {
    if cands != [] {
      var init, last := cands[..|cands|-1], cands[|cands|-1];
      AllOfDistinct(lib, init, levels);
      AllFillingsDistinct(lib, last, levels);
      var planted := Plant(last, AllFillings(lib, last, levels));
      PlantDistinct(last, AllFillings(lib, last, levels));
      forall t | t in AllOf(lib, init, levels) ensures t !in planted {
        AllOfMember(lib, init, levels, t);
        PlantMember(last, AllFillings(lib, last, levels), t);
      }
      DistinctConcat(AllOf(lib, init, levels), planted);
    }
  }

  lemma {:induction false} AllFillingsDistinct(lib: seq<Snippet>, s: Snippet, levels: nat)
    requires Distinct(lib)
    ensures Distinct(AllFillings(lib, s, levels))
    decreases levels, 0
  {
    if s.holes != [] && levels > 0 {
      var lists := seq(|s.holes|, i requires 0 <= i < |s.holes| => All(lib, s.holes[i], levels - 1));
      forall i | 0 <= i < |lists| ensures Distinct(lists[i]) {
        ByTypeDistinct(lib, s.holes[i]);
        AllOfDistinct(lib, ByType(lib, s.holes[i]), levels - 1);
      }
      TuplesAreDistinct(lists);
    }
  }

  lemma AllDistinct(lib: seq<Snippet>, ty: string, levels: nat)
    requires Distinct(lib)
    ensures Distinct(All(lib, ty, levels))
  {
    ByTypeDistinct(lib, ty);
    AllOfDistinct(lib, ByType(lib, ty), levels);
  }
}
