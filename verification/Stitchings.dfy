/** Stitchings as shared objects whose name and expectation are computed once (Stitching.java). */
module Stitchings {
  import opened Options
  import opened Rules
  import opened Vals
  import opened Snippets
  import opened Composition
  import opened TreeNames
  import opened Sequences

  /** The fold without the type check of Stitching.expect. */
  function Lenient(t: Tree): Checked<Val> {
    var vs :- LenientAll(t.kids);
    if |vs| != Arity(t.snip.rule) then Bug("wrong number of holes") else Compose(t.snip.rule, vs)
  }

  function LenientAll(kids: seq<Tree>): (r: Checked<seq<Val>>)
    ensures r.Good? ==> |r.value| == |kids|
  {
    if kids == [] then Good([])
    else
      var v :- Lenient(kids[0]);
      var rest :- LenientAll(kids[1..]);
      Good([v] + rest)
  }

  lemma {:induction false} StrictIsLenient(t: Tree)
    requires Expect(t).Good?
    ensures Lenient(t) == Expect(t)
    decreases t, 1
  {
    StrictKids(t.kids);
  }

  lemma {:induction false} StrictKids(kids: seq<Tree>)
    requires ExpectAll(kids).Good?
    ensures LenientAll(kids) == ExpectAll(kids)
    decreases kids, 0
  {
    if kids != [] {
      StrictIsLenient(kids[0]);
      StrictKids(kids[1..]);
    }
  }

  lemma {:induction false} LenientAt(kids: seq<Tree>, i: nat)
    requires i < |kids| && LenientAll(kids).Good?
    ensures Lenient(kids[i]) == Good(LenientAll(kids).value[i])
  {
    if i > 0 { LenientAt(kids[1..], i - 1); }
  }

  lemma {:induction false} LenientCollect(kids: seq<Tree>, vs: seq<Val>)
    requires |vs| == |kids| && forall i :: 0 <= i < |kids| ==> Lenient(kids[i]) == Good(vs[i])
    ensures LenientAll(kids) == Good(vs)
  {
    if kids != [] {
      LenientCollect(kids[1..], vs[1..]);
      assert vs == [vs[0]] + vs[1..];
    }
  }

  lemma {:induction false} StrictAt(kids: seq<Tree>, i: nat)
    requires i < |kids| && ExpectAll(kids).Good?
    ensures Expect(kids[i]) == Good(ExpectAll(kids).value[i])
  {
    if i > 0 { StrictAt(kids[1..], i - 1); }
  }

  lemma StrictBelow(kids: seq<Tree>, i: nat)
    requires i < |kids|
    ensures ExpectAll(kids).Good? ==> Expect(kids[i]).Good?
  {
    if ExpectAll(kids).Good? { StrictAt(kids, i); }
  }

  lemma StrictAgrees(kids: seq<Tree>)
    ensures ExpectAll(kids).Good? ==> ExpectAll(kids) == LenientAll(kids)
  {
    if ExpectAll(kids).Good? { StrictKids(kids); }
  }

  class Stitching {
    const snip: Snippet
    const kids: seq<Stitching>
    var expectCache: Option<Val>
    var idCache: Option<string>

    ghost const tree: Tree
    ghost const height: nat
    ghost const repr: set<Stitching>

    /** The immutable part: the tree this object stands for and everything below it. Children may be
        shared by any number of parents. */
    ghost predicate Shape()
      decreases height
    {
      && repr == {this} + (set i, x | 0 <= i < |kids| && x in kids[i].repr :: x)
      && tree.snip == snip && |tree.kids| == |kids|
      && (forall i :: 0 <= i < |kids| ==>
            kids[i].height < height && tree.kids[i] == kids[i].tree && kids[i].Shape())
    }

    /** A cache that is filled holds the right answer, except for the type check. */
    ghost predicate CachesHold()
      reads this
    {
      && (expectCache.Some? ==> Lenient(tree) == Good(expectCache.value))
      && (idCache.Some? ==> idCache.value == Name(tree))
    }

    ghost predicate Valid()
      reads repr
    {
      Shape() && forall s :: s in repr ==> s.CachesHold()
    }

    /** The source refuses children that do not fill the holes, one each and of the right type. */
    constructor (s: Snippet, ks: seq<Stitching>)
      requires |ks| == |s.holes| && forall i :: 0 <= i < |ks| ==> ks[i].Valid() && ks[i].snip.ty == s.holes[i]
      ensures Valid() && snip == s && kids == ks
      ensures tree == Tree(s, seq(|ks|, i requires 0 <= i < |ks| => ks[i].tree))
      ensures expectCache == None
    {
      ghost var below: set<Stitching> := set i, x | 0 <= i < |ks| && x in ks[i].repr :: x;
      assert forall x :: x in below ==> x.CachesHold();
      TallestBounds(ks);
      snip, kids := s, ks;
      expectCache, idCache := None, None;
      tree := Tree(s, seq(|ks|, i requires 0 <= i < |ks| => ks[i].tree));
      height := Tallest(ks) + 1;
      repr := {this} + below;
      new;
      assert forall x :: x in below ==> x.CachesHold();
    }

    lemma BelowIsShaped(s: Stitching)
      requires Shape() && s in repr
      ensures s.Shape() && s.repr <= repr && s.height <= height
      decreases height
    {
      if s != this {
        var i :| 0 <= i < |kids| && s in kids[i].repr;
        kids[i].BelowIsShaped(s);
      }
    }

    lemma NotBelow(i: nat)
      requires Shape() && i < |kids|
      ensures this !in kids[i].repr
    {
      if this in kids[i].repr { kids[i].BelowIsShaped(this); }
    }

    /** The name, computed once. */
    method Id() returns (id: string)
      requires Valid()
      modifies repr
      ensures Valid() && id == Name(tree)
      ensures forall s :: s in repr ==> s.expectCache == old(s.expectCache)
      decreases height, 1
    {
      if idCache.Some? { return idCache.value; }
      if |kids| == 0 {
        id := snip.id;
      } else {
        var names := KidNames();
        id := snip.id + "(" + names + ")";
      }
      idCache := Some(id);
    }

    method KidNames() returns (names: string)
      requires Valid()
      modifies repr
      ensures Valid() && names == Names(tree.kids)
      ensures forall s :: s in repr ==> s.expectCache == old(s.expectCache)
      decreases height, 0
    {
      names := "";
      for i := 0 to |kids|
        invariant Valid()
        invariant names == NamesTo(tree.kids, i)
        invariant forall s :: s in repr ==> s.expectCache == old(s.expectCache)
      {
        var one := kids[i].Id();
        NamesStep(tree.kids, i);
        names := WithName(names, one, i);
      }
      WholePrefix(tree.kids);
    }

    /** The expectation, computed once. On a stitching whose fold is well-behaved the answer is the
        fold, whatever has been asked before; otherwise the cache, once filled, is what answers. */
    method Expectation() returns (r: Checked<Val>)
      requires Valid()
      modifies repr
      ensures Valid()
      ensures Expect(tree).Good? ==> r == Expect(tree)
      ensures r.Good? ==> r == Lenient(tree)
      ensures old(expectCache).Some? ==> r == Good(old(expectCache).value)
      ensures old(expectCache) == None && ExpectAll(tree.kids).Good? ==> r == Expect(tree)
      ensures ExpectAll(tree.kids).Good? && Lenient(tree).Good? ==> expectCache.Some?
      decreases height
    {
      if expectCache.Some? {
        if Expect(tree).Good? { StrictIsLenient(tree); }
        return Good(expectCache.value);
      }
      var vs := [];
      for i := 0 to |kids|
        invariant Valid() && expectCache == None
        invariant Folded(tree.kids, vs, i)
      {
        NotBelow(i);
        StrictBelow(tree.kids, i);
        var v := kids[i].Expectation();
        if v.Bug? { return v; }
        FoldedStep(tree.kids, vs, i, v.value);
        vs := vs + [v.value];
      }
      LenientCollect(tree.kids, vs);
      StrictAgrees(tree.kids);
      if |vs| != Arity(snip.rule) { return Bug("wrong number of holes"); }
      var v := Compose(snip.rule, vs);
      if v.Bug? { return v; }
      expectCache := Some(v.value);
      if Mistyped(v.value, snip.ty) { return Bug("mistyped"); }
      return v;
    }
  }

  datatype BuildError = WrongCount | WrongType(hole: nat)

  ghost predicate FillsHole(s: Snippet, ks: seq<Stitching>, i: nat)
    requires i < |ks| == |s.holes|
  {
    ks[i].snip.ty == s.holes[i]
  }

  /** What `new Stitching` does with any children: it refuses the wrong number, then the first of the
      wrong type. */
  method NewStitching(s: Snippet, ks: seq<Stitching>) returns (r: Result<Stitching, BuildError>)
    requires forall i :: 0 <= i < |ks| ==> ks[i].Valid()
    ensures r == Err(WrongCount) <==> |ks| != |s.holes|
    ensures r.Ok? <==> |ks| == |s.holes| && forall i :: 0 <= i < |ks| ==> FillsHole(s, ks, i)
    ensures forall h: nat :: r == Err(WrongType(h)) ==>
              h < |ks| == |s.holes| && !FillsHole(s, ks, h) && forall i :: 0 <= i < h ==> FillsHole(s, ks, i)
    ensures r.Ok? ==> fresh(r.value) && r.value.Valid() && r.value.kids == ks && r.value.expectCache == None
    ensures r.Ok? ==> r.value.tree == Tree(s, seq(|ks|, i requires 0 <= i < |ks| => ks[i].tree))
  {
    if |ks| != |s.holes| { return Err(WrongCount); }
    for i := 0 to |ks|
      invariant forall j :: 0 <= j < i ==> FillsHole(s, ks, j)
    {
      if ks[i].snip.ty != s.holes[i] {
        assert !FillsHole(s, ks, i);
        return Err(WrongType(i));
      }
    }
    forall i | 0 <= i < |ks| ensures ks[i].snip.ty == s.holes[i] { assert FillsHole(s, ks, i); }
    var made := new Stitching(s, ks);
    return Ok(made);
  }

  /** The type check fires once. The value is cached before it is checked, so on a stitching whose
      children are in order asking twice gives the same answer exactly if the value has the type the
      snippet declares; otherwise the refusal comes first and the refused value second. */
  method AskTwice(s: Stitching) returns (first: Checked<Val>, second: Checked<Val>)
    requires s.Valid() && s.expectCache == None && ExpectAll(s.tree.kids).Good?
    modifies s.repr
    ensures first == Expect(s.tree)
    ensures first == second <==> !(Lenient(s.tree).Good? && Mistyped(Lenient(s.tree).value, s.snip.ty))
    ensures first != second ==> first == Bug("mistyped") && second == Lenient(s.tree)
  {
    StrictKids(s.tree.kids);
    first := s.Expectation();
    second := s.Expectation();
  }

  /** The first `i` children have answered. */
  ghost predicate Folded(kids: seq<Tree>, vs: seq<Val>, i: nat) {
    |vs| == i <= |kids| && forall k :: 0 <= k < i ==> Lenient(kids[k]) == Good(vs[k])
  }

  lemma FoldedStep(kids: seq<Tree>, vs: seq<Val>, i: nat, v: Val)
    requires Folded(kids, vs, i) && i < |kids| && Lenient(kids[i]) == Good(v)
    ensures Folded(kids, vs + [v], i + 1)
  {
  }

  function NamesTo(kids: seq<Tree>, i: nat): string
    requires i <= |kids|
  {
    if i == 0 then "" else Names(kids[..i])
  }

  /** One more name, after a comma unless it is the first. */
  function WithName(names: string, one: string, i: nat): string {
    if i == 0 then one else names + "," + one
  }

  lemma NamesStep(kids: seq<Tree>, i: nat)
    requires i < |kids|
    ensures NamesTo(kids, i + 1) == WithName(NamesTo(kids, i), Name(kids[i]), i)
  {
    Snoc(kids, i);
    NamesSnoc(kids[..i], kids[i]);
  }

  ghost function Tallest(ks: seq<Stitching>): nat {
    if ks == [] then 0
    else if ks[0].height >= Tallest(ks[1..]) then ks[0].height else Tallest(ks[1..])
  }

  lemma {:induction false} TallestBounds(ks: seq<Stitching>)
    ensures forall i :: 0 <= i < |ks| ==> ks[i].height <= Tallest(ks)
  {
    if ks != [] {
      TallestBounds(ks[1..]);
      assert forall i :: 0 < i < |ks| ==> ks[i] == ks[1..][i-1];
    }
  }

  lemma {:induction false} NamesSnoc(ts: seq<Tree>, t: Tree)
    ensures Names(ts + [t]) == if ts == [] then Name(t) else Names(ts) + "," + Name(t)
  {
    if ts != [] {
      NamesSnoc(ts[1..], t);
      assert (ts + [t])[1..] == ts[1..] + [t];
      if |ts| == 1 {
        assert Names(ts[1..] + [t]) == Name(t);
      } else {
        Associates(Name(ts[0]) + ",", Names(ts[1..]), "," + Name(t));
        Associates(Name(ts[0]) + "," + Names(ts[1..]), ",", Name(t));
        Associates(Names(ts[1..]), ",", Name(t));
      }
    }
  }
}
