/** The insertion sort of Strs.sort, Markers.by and Emit.sortSections, for any comparison. */
module Sorting {

  import opened Sections

  /** The two comparisons the sorts use. */
  datatype Comparison = Textual | BySection

  function Compare(cmp: Comparison, x: string, y: string): int {
    match cmp
    case Textual => CompareText(x, y)
    case BySection => CompareSections(x, y)
  }

  /** `cmp` is a total order on `xs`, with 0 for equal strings only. */
  ghost predicate OrdersAll(cmp: Comparison, xs: set<string>) {
    && (forall x, y :: x in xs && y in xs ==> (Compare(cmp, x, y) < 0 <==> Compare(cmp, y, x) > 0))
    && (forall x, y :: x in xs && y in xs ==> (Compare(cmp, x, y) == 0 <==> x == y))
    && (forall x, y, z :: x in xs && y in xs && z in xs && Compare(cmp, x, y) <= 0 && Compare(cmp, y, z) <= 0 ==>
          Compare(cmp, x, z) <= 0)
  }

  ghost predicate SortedBy(cmp: Comparison, s: seq<string>) {
    forall i, j :: 0 <= i < j < |s| ==> Compare(cmp, s[i], s[j]) <= 0
  }

  /** Slide `x` left past everything that compares greater. */
  function Insert(cmp: Comparison, s: seq<string>, x: string): (r: seq<string>)
    ensures |r| == |s| + 1
  {
    if s == [] || Compare(cmp, s[|s|-1], x) <= 0 then s + [x]
    else Insert(cmp, s[..|s|-1], x) + [s[|s|-1]]
  }

  function Sort(cmp: Comparison, s: seq<string>): (r: seq<string>)
    ensures |r| == |s|
  {
    if s == [] then [] else Insert(cmp, Sort(cmp, s[..|s|-1]), s[|s|-1])
  }

  // ---- what sorting promises ----

  lemma {:induction false} InsertKeeps(cmp: Comparison, s: seq<string>, x: string)
    ensures multiset(Insert(cmp, s, x)) == multiset(s) + multiset{x}
  {
    if s != [] && Compare(cmp, s[|s|-1], x) > 0 {
      InsertKeeps(cmp, s[..|s|-1], x);
      assert s == s[..|s|-1] + [s[|s|-1]];
    }
  }

  lemma {:induction false} SortKeeps(cmp: Comparison, s: seq<string>)
    ensures multiset(Sort(cmp, s)) == multiset(s)
  {
    if s != [] {
      SortKeeps(cmp, s[..|s|-1]);
      InsertKeeps(cmp, Sort(cmp, s[..|s|-1]), s[|s|-1]);
      assert s == s[..|s|-1] + [s[|s|-1]];
    }
  }

  ghost predicate Among(s: seq<string>, xs: set<string>) {
    forall y :: y in s ==> y in xs
  }

  lemma SameElements(s: seq<string>, t: seq<string>)
    requires multiset(s) == multiset(t)
    ensures |s| == |t| && forall x :: x in s <==> x in t
  {
    forall x ensures x in s <==> x in t {
      assert x in s <==> x in multiset(s);
      assert x in t <==> x in multiset(t);
    }
    assert |multiset(s)| == |s| && |multiset(t)| == |t|;
  }

  lemma SortedSnoc(cmp: Comparison, s: seq<string>, x: string)
    requires SortedBy(cmp, s) && forall y :: y in s ==> Compare(cmp, y, x) <= 0
    ensures SortedBy(cmp, s + [x])
  {
    forall i, j | 0 <= i < j < |s + [x]| ensures Compare(cmp, (s + [x])[i], (s + [x])[j]) <= 0 {
      assert (s + [x])[i] in s;
    }
  }

  lemma LastBounds(cmp: Comparison, s: seq<string>, x: string, xs: set<string>)
    requires OrdersAll(cmp, xs) && x in xs && Among(s, xs) && SortedBy(cmp, s)
    requires s != [] && Compare(cmp, s[|s|-1], x) <= 0
    ensures forall y :: y in s ==> Compare(cmp, y, x) <= 0
  {
    assert s[|s|-1] in s;
    forall y | y in s ensures Compare(cmp, y, x) <= 0 { assert Compare(cmp, y, s[|s|-1]) <= 0; }
  }

  lemma {:induction false} InsertSorts(cmp: Comparison, s: seq<string>, x: string, xs: set<string>)
    requires OrdersAll(cmp, xs) && x in xs && Among(s, xs) && SortedBy(cmp, s)
    ensures SortedBy(cmp, Insert(cmp, s, x))
  {
    if s != [] {
      var init, last := s[..|s|-1], s[|s|-1];
      assert last in s;
      if Compare(cmp, last, x) <= 0 {
        LastBounds(cmp, s, x, xs);
        SortedSnoc(cmp, s, x);
      } else {
        InsertSorts(cmp, init, x, xs);
        var r := Insert(cmp, init, x);
        forall y | y in r ensures Compare(cmp, y, last) <= 0 { InsertMembers(cmp, init, x, y); }
        SortedSnoc(cmp, r, last);
      }
    }
  }

  lemma InsertMembers(cmp: Comparison, s: seq<string>, x: string, y: string)
    requires y in Insert(cmp, s, x)
    ensures y == x || y in s
  {
    InsertKeeps(cmp, s, x);
    assert y in multiset(Insert(cmp, s, x));
  }

  lemma {:induction false} SortSorts(cmp: Comparison, s: seq<string>, xs: set<string>)
    requires OrdersAll(cmp, xs) && Among(s, xs)
    ensures SortedBy(cmp, Sort(cmp, s)) && Among(Sort(cmp, s), xs)
  {
    SortKeeps(cmp, s);
    SameElements(Sort(cmp, s), s);
    if s != [] {
      SortSorts(cmp, s[..|s|-1], xs);
      InsertSorts(cmp, Sort(cmp, s[..|s|-1]), s[|s|-1], xs);
    }
  }

  /** There is one sorted arrangement of a multiset. */
  lemma {:induction false} SortedIsUnique(cmp: Comparison, s: seq<string>, t: seq<string>, xs: set<string>)
    requires OrdersAll(cmp, xs) && Among(s, xs)
    requires SortedBy(cmp, s) && SortedBy(cmp, t) && multiset(s) == multiset(t)
    ensures s == t
  {
    SameElements(s, t);
    if s != [] {
      LastIsGreatest(cmp, s, t, xs);
      DropLast(s);
      DropLast(t);
      SortedIsUnique(cmp, s[..|s|-1], t[..|t|-1], xs);
      assert s == s[..|s|-1] + [s[|s|-1]] && t == t[..|t|-1] + [t[|t|-1]];
    }
  }

  lemma DropLast(s: seq<string>)
    requires s != []
    ensures multiset(s[..|s|-1]) == multiset(s) - multiset{s[|s|-1]}
  {
    assert s == s[..|s|-1] + [s[|s|-1]];
  }

  lemma LastIsGreatest(cmp: Comparison, s: seq<string>, t: seq<string>, xs: set<string>)
    requires OrdersAll(cmp, xs) && Among(s, xs)
    requires s != [] && t != [] && SortedBy(cmp, s) && SortedBy(cmp, t) && forall x :: x in s <==> x in t
    ensures s[|s|-1] == t[|t|-1]
  {
    var m, n := s[|s|-1], t[|t|-1];
    assert m in s && n in t;
    assert m in t && n in s;
    var i :| 0 <= i < |t| && t[i] == m;
    var j :| 0 <= j < |s| && s[j] == n;
    assert m == n || (Compare(cmp, n, m) <= 0 && Compare(cmp, m, n) <= 0);
  }

  /** So sorting does not depend on the order things arrive in. */
  lemma SortIgnoresOrder(cmp: Comparison, s: seq<string>, t: seq<string>, xs: set<string>)
    requires OrdersAll(cmp, xs) && Among(s, xs) && multiset(s) == multiset(t)
    ensures Sort(cmp, s) == Sort(cmp, t)
  {
    SameElements(s, t);
    SortSorts(cmp, s, xs);
    SortSorts(cmp, t, xs);
    SortKeeps(cmp, s);
    SortKeeps(cmp, t);
    SortedIsUnique(cmp, Sort(cmp, s), Sort(cmp, t), xs);
  }

  /** The entries of `s` that are in `p`, in their order. */
  function Those(s: seq<string>, p: set<string>): seq<string> {
    if s == [] then []
    else if s[|s|-1] in p then Those(s[..|s|-1], p) + [s[|s|-1]]
    else Those(s[..|s|-1], p)
  }

  lemma ThoseSnoc(s: seq<string>, x: string, p: set<string>)
    ensures x in p ==> Those(s + [x], p) == Those(s, p) + [x]
    ensures x !in p ==> Those(s + [x], p) == Those(s, p)
  {
    assert (s + [x])[..|s|] == s;
  }

  ghost predicate Tied(cmp: Comparison, p: set<string>) {
    forall x, y :: x in p && y in p ==> Compare(cmp, x, y) <= 0
  }

  lemma {:induction false} InsertIsStable(cmp: Comparison, s: seq<string>, x: string, p: set<string>)
    requires Tied(cmp, p)
    ensures Those(Insert(cmp, s, x), p) == Those(s + [x], p)
  {
    if s != [] && Compare(cmp, s[|s|-1], x) > 0 {
      var init, last := s[..|s|-1], s[|s|-1];
      InsertIsStable(cmp, init, x, p);
      ThoseSnoc(init, x, p);
      ThoseSnoc(s, x, p);
      ThoseSnoc(Insert(cmp, init, x), last, p);
      assert !(last in p && x in p);
    }
  }

  /** Strings that the comparison does not tell apart stay in the order they came in, whatever the
      comparison is. */
  lemma {:induction false} SortIsStable(cmp: Comparison, s: seq<string>, p: set<string>)
    requires Tied(cmp, p)
    ensures Those(Sort(cmp, s), p) == Those(s, p)
  {
    if s != [] {
      var init, last := s[..|s|-1], s[|s|-1];
      SortIsStable(cmp, init, p);
      InsertIsStable(cmp, Sort(cmp, init), last, p);
      ThoseSnoc(Sort(cmp, init), last, p);
    }
  }

  // ---- in place ----

  /** `s` with `x` standing after position `j`. */
  function WithGap(s: seq<string>, x: string, j: int): seq<string>
    requires -1 <= j < |s|
  {
    s[..j+1] + [x] + s[j+1..]
  }

  /** Where the slide stops: past everything greater. */
  lemma {:induction false} InsertAt(cmp: Comparison, s: seq<string>, x: string, j: int)
    requires -1 <= j < |s|
    requires Above(cmp, s, x, j)
    requires j >= 0 ==> Compare(cmp, s[j], x) <= 0
    ensures Insert(cmp, s, x) == WithGap(s, x, j)
  {
    if j < |s| - 1 {
      InsertBefore(cmp, s, x);
      InsertAt(cmp, s[..|s|-1], x, j);
      PutBackLast(s, x, j);
    } else {
      InsertLast(s, x);
    }
  }

  lemma InsertBefore(cmp: Comparison, s: seq<string>, x: string)
    requires s != [] && Compare(cmp, s[|s|-1], x) > 0
    ensures Insert(cmp, s, x) == Insert(cmp, s[..|s|-1], x) + [s[|s|-1]]
  {
  }

  lemma PutBackLast(s: seq<string>, x: string, j: int)
    requires -1 <= j < |s| - 1
    ensures var init := s[..|s|-1];
            WithGap(init, x, j) + [s[|s|-1]] == WithGap(s, x, j)
  {
  }

  lemma InsertLast(s: seq<string>, x: string)
    ensures s[..|s|] + [x] + s[|s|..] == s + [x]
  {
  }

  /** Of the first `i` entries those after `j` have moved up by one; the rest is as it was. */
  ghost predicate MovedUp(now: seq<string>, was: seq<string>, j: int, i: nat) {
    && |now| == |was| && -1 <= j < i < |was|
    && (forall k :: 0 <= k <= j ==> now[k] == was[k])
    && (forall k :: j + 1 < k <= i ==> now[k] == was[k-1])
    && (forall k :: i < k < |was| ==> now[k] == was[k])
  }

  lemma MovedFurther(now: seq<string>, was: seq<string>, j: int, i: nat)
    requires j >= 0 && MovedUp(now, was, j, i)
    ensures now[j] == was[..i][j] && MovedUp(now[j+1 := now[j]], was, j - 1, i)
  {
  }

  /** The entries once `x` stands in the gap. */
  lemma GapFilled(now: seq<string>, was: seq<string>, j: int, i: nat, x: string)
    requires MovedUp(now, was, j, i)
    ensures now[j+1 := x][..i+1] == WithGap(was[..i], x, j)
    ensures forall k :: i < k < |was| ==> now[j+1 := x][k] == was[k]
  {
  }

  /** The inner loop: move everything greater than `x` up by one, and say where the gap is. */
  method Slide(a: array<string>, cmp: Comparison, i: nat, x: string) returns (j: int)
    requires i < a.Length
    modifies a
    ensures MovedUp(a[..], old(a[..]), j, i)
    ensures Insert(cmp, old(a[..])[..i], x) == WithGap(old(a[..])[..i], x, j)
  {
    ghost var was := a[..];
    j := i - 1;
    while j >= 0 && Compare(cmp, a[j], x) > 0
      invariant MovedUp(a[..], was, j, i)
      invariant Above(cmp, was[..i], x, j)
    {
      ghost var now := a[..];
      MovedFurther(now, was, j, i);
      AboveStep(cmp, was[..i], x, j);
      a[j+1] := a[j];
      assert a[..] == now[j+1 := now[j]];
      j := j - 1;
    }
    if j >= 0 { assert a[..][j] == was[..i][j]; }
    InsertAt(cmp, was[..i], x, j);
  }

  /** Everything after position `j` compares greater than `x`. */
  ghost predicate Above(cmp: Comparison, s: seq<string>, x: string, j: int)
    requires -1 <= j
  {
    forall k :: j < k < |s| ==> Compare(cmp, s[k], x) > 0
  }

  lemma AboveStep(cmp: Comparison, s: seq<string>, x: string, j: int)
    requires 0 <= j < |s| && Above(cmp, s, x, j) && Compare(cmp, s[j], x) > 0
    ensures Above(cmp, s, x, j - 1)
  {
  }

  /** Slide the entry at `i` into the sorted part before it. */
  method SlideIn(a: array<string>, cmp: Comparison, i: nat)
    requires i < a.Length
    modifies a
    ensures a[..i+1] == Insert(cmp, old(a[..])[..i], old(a[i]))
    ensures forall k :: i < k < a.Length ==> a[k] == old(a[k])
  {
    ghost var was := a[..];
    var x := a[i];
    var j := Slide(a, cmp, i, x);
    ghost var now := a[..];
    a[j+1] := x;
    assert a[..] == now[j+1 := x];
    GapFilled(now, was, j, i, x);
    assert a[..i+1] == a[..][..i+1];
    assert forall k :: i < k < a.Length ==> a[k] == a[..][k];
  }

  method InsertionSort(a: array<string>, cmp: Comparison)
    modifies a
    ensures a[..] == Sort(cmp, old(a[..]))
  {
    ghost var s := a[..];
    if a.Length == 0 { return; }
    assert s[..1] == [s[0]] && s[..1][..0] == [];
    for i := 1 to a.Length
      invariant a[..i] == Sort(cmp, s[..i])
      invariant forall k :: i <= k < a.Length ==> a[k] == s[k]
    {
      assert s[..i+1][..i] == s[..i];
      SlideIn(a, cmp, i);
    }
    assert s[..a.Length] == s;
  }

  lemma TextOrders(xs: set<string>)
    ensures OrdersAll(Textual, xs)
  {
    forall x, y | x in xs && y in xs
      ensures CompareText(x, y) < 0 <==> CompareText(y, x) > 0
      ensures CompareText(x, y) == 0 <==> x == y
    {
      CompareFlips(x, y);
    }
    forall x, y, z | x in xs && y in xs && z in xs && CompareText(x, y) <= 0 && CompareText(y, z) <= 0
      ensures CompareText(x, z) <= 0
    {
      CompareTransitive(x, y, z);
    }
  }

  /** On canonical sections the section comparison is a total order. */
  lemma SectionOrders(xs: set<string>)
    requires forall x :: x in xs ==> CanonicalSection(x)
    ensures OrdersAll(BySection, xs)
  {
    forall x, y | x in xs && y in xs
      ensures CompareSections(x, y) < 0 <==> CompareSections(y, x) > 0
      ensures CompareSections(x, y) == 0 <==> x == y
    {
      SectionsCompareLikeNumbers(x, y);
      SectionsCompareLikeNumbers(y, x);
    }
    forall x, y, z | x in xs && y in xs && z in xs && CompareSections(x, y) <= 0 && CompareSections(y, z) <= 0
      ensures CompareSections(x, z) <= 0
    {
      SectionsCompareLikeNumbers(x, y);
      SectionsCompareLikeNumbers(y, z);
      SectionsCompareLikeNumbers(x, z);
      LexTransitive(Numbers(Parts(x)), Numbers(Parts(y)), Numbers(Parts(z)));
    }
  }

  /** The sorted sections are the one arrangement in increasing order of their numbers. */
  lemma SortedSections(s: seq<string>, t: seq<string>)
    requires forall x :: x in s ==> CanonicalSection(x)
    ensures t == Sort(BySection, s) <==>
            multiset(t) == multiset(s) &&
            forall i, j :: 0 <= i < j < |t| ==> !LexLess(Numbers(Parts(t[j])), Numbers(Parts(t[i])))
  {
    var xs := set x | x in s;
    var r := Sort(BySection, s);
    SectionOrders(xs);
    SortSorts(BySection, s, xs);
    SortKeeps(BySection, s);
    forall u: seq<string>, i, j | multiset(u) == multiset(s) && 0 <= i < j < |u|
      ensures Compare(BySection, u[i], u[j]) <= 0 <==> !LexLess(Numbers(Parts(u[j])), Numbers(Parts(u[i])))
    {
      assert u[i] in multiset(s) && u[j] in multiset(s);
      SectionsCompareLikeNumbers(u[i], u[j]);
    }
    if multiset(t) == multiset(s) && SortedBy(BySection, t) {
      SameElements(t, s);
      SortedIsUnique(BySection, t, r, xs);
    }
  }
}
