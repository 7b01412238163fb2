/** The printed name "outer(inner,inner)" of a stitching (Stitching.id). */
module TreeNames {
  import opened Sequences
  import opened Snippets
  import opened Enumeration
  import Rules

  function Name(t: Tree): string {
    if t.kids == [] then t.snip.id else t.snip.id + "(" + Names(t.kids) + ")"
  }

  function Names(kids: seq<Tree>): string {
    if kids == [] then ""
    else if |kids| == 1 then Name(kids[0])
    else Name(kids[0]) + "," + Names(kids[1..])
  }

  predicate Special(c: char) {
    c == '(' || c == ')' || c == ','
  }

  predicate PlainId(id: string) {
    forall i :: 0 <= i < |id| ==> !Special(id[i])
  }

  ghost predicate PlainIds(lib: seq<Snippet>) {
    UniqueIds(lib) && forall s :: s in lib ==> PlainId(s.id)
  }

  /** A place where an id must have ended. */
  predicate Stops(rest: string) {
    rest == "" || Special(rest[0])
  }

  lemma IdsCancel(a: string, x: string, b: string, y: string)
    requires PlainId(a) && PlainId(b) && Stops(x) && Stops(y) && a + x == b + y
    ensures a == b && x == y
  {
    var w := a + x;
    assert forall i :: 0 <= i < |a| ==> w[i] == a[i];
    assert forall i :: 0 <= i < |b| ==> w[i] == b[i];
    assert |a| < |w| ==> w[|a|] == x[0];
    assert |b| < |w| ==> w[|b|] == y[0];
    assert |a| == |b|;
    assert a == w[..|a|] && x == w[|a|..];
    assert b == w[..|b|] && y == w[|b|..];
  }

  lemma HeadCancels(c: char, a: string, b: string)
    requires [c] + a == [c] + b
    ensures a == b
  {
    assert ([c] + a)[1..] == a && ([c] + b)[1..] == b;
  }

  /** What follows the root's id in "name, then rest". */
  function AfterId(t: Tree, rest: string): string {
    if t.kids == [] then rest else ['('] + (Names(t.kids) + ([')'] + rest))
  }

  lemma NameSplits(t: Tree, rest: string)
    ensures Name(t) + rest == t.snip.id + AfterId(t, rest)
  {
    if t.kids != [] {
      Associates(t.snip.id + "(" + Names(t.kids), ")", rest);
      Associates(t.snip.id + "(", Names(t.kids), [')'] + rest);
      Associates(t.snip.id, "(", Names(t.kids) + ([')'] + rest));
    }
  }

  /** What may follow a whole name: nothing, a comma or a closing parenthesis. */
  predicate Ends(rest: string) {
    rest == "" || rest[0] == ',' || rest[0] == ')'
  }

  /** A name can be cancelled from the front of a text, whatever follows. */
  lemma {:induction false} NamesCancel(lib: seq<Snippet>, t: Tree, x: string, u: Tree, y: string)
    requires PlainIds(lib) && WellTyped(lib, t) && WellTyped(lib, u)
    requires Ends(x) && Ends(y) && Name(t) + x == Name(u) + y
    ensures t == u && x == y
    decreases t, 0
  {
    NameSplits(t, x);
    NameSplits(u, y);
    IdsCancel(t.snip.id, AfterId(t, x), u.snip.id, AfterId(u, y));
    SameIdSameSnippet(lib, t.snip, u.snip);
    if t.kids != [] {
      HeadCancels('(', Names(t.kids) + ([')'] + x), Names(u.kids) + ([')'] + y));
      KidsCancel(lib, t.kids, [')'] + x, u.kids, [')'] + y);
      HeadCancels(')', x, y);
    }
  }

  lemma SameIdSameSnippet(lib: seq<Snippet>, s: Snippet, r: Snippet)
    requires UniqueIds(lib) && s in lib && r in lib && s.id == r.id
    ensures s == r
  {
    var i, j :| 0 <= i < |lib| && 0 <= j < |lib| && lib[i] == s && lib[j] == r;
  }

  lemma {:induction false} KidsCancel(lib: seq<Snippet>, ts: seq<Tree>, x: string, us: seq<Tree>, y: string)
    requires PlainIds(lib) && |ts| == |us| > 0
    requires forall i :: 0 <= i < |ts| ==> WellTyped(lib, ts[i]) && WellTyped(lib, us[i])
    requires x != "" && y != "" && x[0] == ')' && y[0] == ')' && Names(ts) + x == Names(us) + y
    ensures ts == us && x == y
    decreases ts
  {
    if |ts| == 1 {
      NamesCancel(lib, ts[0], x, us[0], y);
    } else {
      NamesSplit(ts, x);
      NamesSplit(us, y);
      var tx, uy := Names(ts[1..]) + x, Names(us[1..]) + y;
      NamesCancel(lib, ts[0], [','] + tx, us[0], [','] + uy);
      HeadCancels(',', tx, uy);
      KidsCancel(lib, ts[1..], x, us[1..], y);
      assert ts == [ts[0]] + ts[1..] && us == [us[0]] + us[1..];
    }
  }

  lemma NamesSplit(ts: seq<Tree>, rest: string)
    requires |ts| > 1
    ensures Names(ts) + rest == Name(ts[0]) + ([','] + (Names(ts[1..]) + rest))
  {
    Associates(Name(ts[0]) + ",", Names(ts[1..]), rest);
    Associates(Name(ts[0]), ",", Names(ts[1..]) + rest);
  }

  /** Two well-typed stitchings with the same printed name are the same tree. */
  lemma NameIsUnique(lib: seq<Snippet>, t: Tree, u: Tree)
    requires PlainIds(lib) && WellTyped(lib, t) && WellTyped(lib, u)
    ensures Name(t) == Name(u) <==> t == u
  {
    if Name(t) == Name(u) {
      assert Name(t) + "" == Name(u) + "";
      NamesCancel(lib, t, "", u, "");
    }
  }

  /** Two leaves and a one-hole snippet, all registrable: an id need only be new. */
  const RULE := Rules.Leaf(Rules.IntLit(0))
  const X := Snippet("x", ["1"], "int", [], RULE)
  const F := Snippet("f", ["1"], "int", ["int"], RULE)
  const FX := Snippet("f(x)", ["1"], "int", [], RULE)

  /** Then names can collide: the leaf "f(x)" prints as the tree of "f" over "x" does. */
  lemma NamesCanCollide()
    ensures UniqueIds([X, F, FX])
    ensures WellTyped([X, F, FX], Tree(F, [Tree(X, [])])) && WellTyped([X, F, FX], Tree(FX, []))
    ensures Name(Tree(F, [Tree(X, [])])) == Name(Tree(FX, []))
  {
    assert "int"[0] == 'i' && REJECT[0] == 'r';
    assert "f" + "(" + "x" + ")" == "f(x)";
    assert "f"[0] != "x"[0] && |"f(x)"| == 4;
    var kids := [Tree(X, [])];
    assert Name(Tree(F, kids)) == "f" + "(" + Names(kids) + ")" && Names(kids) == Name(kids[0]);
  }

  /** So the case comments of one enumeration never repeat. */
  lemma CaseCommentsDiffer(lib: seq<Snippet>, cap: nat, ty: string, depth: nat)
    requires PlainIds(lib)
    ensures var kept := Capped(lib, cap, ty, depth);
            forall i, j :: 0 <= i < j < |kept| ==> Name(kept[i]) != Name(kept[j])
  {
    var kept := Capped(lib, cap, ty, depth);
    UniqueIdsDistinct(lib);
    CappedDistinct(lib, cap, ty, depth);
    forall i, j | 0 <= i < j < |kept| ensures Name(kept[i]) != Name(kept[j]) {
      CappedIsSound(lib, cap, ty, depth, kept[i]);
      CappedIsSound(lib, cap, ty, depth, kept[j]);
      NameIsUnique(lib, kept[i], kept[j]);
    }
  }
}
