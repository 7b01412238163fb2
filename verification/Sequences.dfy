/** Sequences without repetition, and sequences glued from pieces. */
module Sequences {

  ghost predicate Distinct<T>(s: seq<T>) {
    forall i, j :: 0 <= i < j < |s| ==> s[i] != s[j]
  }

  lemma DistinctConcat<T>(a: seq<T>, b: seq<T>)
    requires Distinct(a) && Distinct(b)
    requires forall x :: x in a ==> x !in b
    ensures Distinct(a + b)
  {
    forall i, j | 0 <= i < j < |a + b| ensures (a + b)[i] != (a + b)[j] {
      if i < |a| <= j { assert (a + b)[j] in b; }
    }
  }

  lemma Snoc<T>(s: seq<T>, i: nat)
    requires i < |s|
    ensures s[..i+1] == s[..i] + [s[i]]
  {
  }

  lemma Associates<T>(a: seq<T>, b: seq<T>, c: seq<T>)
    ensures (a + b) + c == a + (b + c)
  {
  }

  lemma LastOfConcat<T>(a: seq<T>, b: seq<T>)
    requires b != []
    ensures a + b != [] && (a + b)[..|a + b|-1] == a + b[..|b|-1] && (a + b)[|a + b|-1] == b[|b|-1]
  {
  }

  lemma InitLast<T>(s: seq<T>)
    requires s != []
    ensures s == s[..|s|-1] + [s[|s|-1]]
  {
  }

  /** A slice of a tail is a slice, and a tail of a tail is a tail. */
  lemma TailSlices<T>(s: seq<T>, i: nat, e: nat)
    requires i + e <= |s|
    ensures s[i..][..e] == s[i..i+e]
    ensures s[i..][e..] == s[i+e..]
  {
  }

  lemma ToTheEnd<T>(s: seq<T>, i: nat)
    requires i <= |s|
    ensures s[i..|s|] == s[i..]
  {
  }

  lemma HeadTail<T>(x: T, s: seq<T>)
    ensures ([x] + s)[0] == x && ([x] + s)[1..] == s
  {
  }

  lemma FirstOfConcat<T>(a: seq<T>, b: seq<T>)
    requires a != []
    ensures a + b != [] && (a + b)[0] == a[0] && (a + b)[1..] == a[1..] + b
  {
  }

  /** All the lists, one after another. */
  function Flat<T>(lists: seq<seq<T>>): seq<T> {
    if lists == [] then [] else Flat(lists[..|lists|-1]) + lists[|lists|-1]
  }

  lemma ConcatAt<T>(a: seq<T>, b: seq<T>, k: nat)
    ensures k < |a| ==> (a + b)[k] == a[k]
    ensures |a| <= k < |a + b| ==> (a + b)[k] == b[k-|a|]
  {
  }

  /** Entry `x` of list `i` stands `x` places after all the lists before it. */
  lemma {:induction false} FlatAt<T>(lists: seq<seq<T>>, i: nat, x: nat)
    requires i < |lists| && x < |lists[i]|
    ensures |Flat(lists[..i])| + x < |Flat(lists)| && Flat(lists)[|Flat(lists[..i])| + x] == lists[i][x]
  {
    var init, last := lists[..|lists|-1], lists[|lists|-1];
    if i < |init| {
      FlatAt(init, i, x);
      assert init[..i] == lists[..i];
    }
    ConcatAt(Flat(init), last, |Flat(lists[..i])| + x);
  }

  lemma WholePrefix<T>(s: seq<T>)
    ensures s[..|s|] == s
  {
  }
}
